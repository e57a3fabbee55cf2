/**
 * The part of java.nio.ByteBuffer the benchmarks use: a fixed store with a
 * position and a limit, relative puts that throw BufferOverflowException
 * when too little remains (`false`, nothing changed), and the byte order
 * `putInt` writes in.
 */
module ByteBuffers {
  import opened JavaTypes

  /** `ByteOrder.BIG_ENDIAN` or `ByteOrder.LITTLE_ENDIAN`. */
  datatype Order = BigEndianOrder | LittleEndianOrder

  /** The four bytes an `int` is stored as in the given order. */
  function IntBytes(order: Order, v: int): (b: seq<i8>)
    ensures |b| == 4
  {
    if order == LittleEndianOrder then LittleEndian(v) else BigEndian(v)
  }

  /** Java array and buffer sizes are `int`s. */
  const MAX_LENGTH: nat := 0x7FFF_FFFF

  class ByteBuffer {
    const store: array<i8>
    var position: int
    var limit: int
    const order: Order

    ghost predicate Valid()
      reads this
    {
      0 <= position <= limit <= store.Length <= MAX_LENGTH
    }

    /** `remaining()`. */
    function Remaining(): (n: int)
      reads this
      requires Valid()
      ensures 0 <= n <= store.Length && position + n == limit
    {
      limit - position
    }

    /** `allocate(capacity)` or `allocateDirect(capacity)`, followed by `order(order)`. */
    constructor (capacity: nat, order: Order)
      requires capacity <= MAX_LENGTH
      ensures Valid() && fresh(store) && store.Length == capacity && this.order == order
      ensures position == 0 && limit == capacity
    {
      store := new i8[capacity];
      position := 0;
      limit := capacity;
      this.order := order;
    }

    /** `clear()`: position to zero, limit to capacity; the bytes stay. */
    method Clear()
      requires Valid()
      modifies this
      ensures Valid() && position == 0 && limit == store.Length
    {
      position := 0;
      limit := store.Length;
    }

    /** `flip()`: the limit to the position, the position to zero. */
    method Flip()
      requires Valid()
      modifies this
      ensures Valid() && position == 0 && limit == old(position)
    {
      limit := position;
      position := 0;
    }

    /** `position(0)` then `limit(capacity())`: the whole store is remaining. */
    method Rewind()
      requires Valid()
      modifies this
      ensures Valid() && position == 0 && limit == store.Length
    {
      position := 0;
      limit := store.Length;
    }

    /** `put(value)`: one byte at the position. */
    method PutByte(value: i8) returns (ok: bool)
      requires Valid()
      modifies this, store
      ensures Valid() && limit == old(limit)
      ensures ok <==> old(Remaining()) >= 1
      ensures ok ==> position == old(position) + 1 && store[..] == old(store[..])[old(position) := value]
      ensures !ok ==> position == old(position) && store[..] == old(store[..])
    {
      if limit - position < 1 {
        return false;
      }
      store[position] := value;
      position := position + 1;
      ok := true;
    }

    /** `putInt(value)`: the four bytes of `value`, in the buffer's order, at the position. */
    method PutInt(value: i32) returns (ok: bool)
      requires Valid()
      modifies this, store
      ensures Valid() && limit == old(limit)
      ensures ok <==> old(Remaining()) >= 4
      ensures ok ==> position == old(position) + 4
      ensures !ok ==> position == old(position)
      ensures forall k :: 0 <= k < store.Length ==>
                store[k] == if ok && old(position) <= k < position then IntBytes(order, value)[k - old(position)] else old(store[k])
    {
      if limit - position < 4 {
        return false;
      }
      var bytes := IntBytes(order, value);
      forall k | 0 <= k < 4 {
        store[position + k] := bytes[k];
      }
      position := position + 4;
      ok := true;
    }

    /**
     * `put(src, 0, length)`: copies `src[0..length)` to the position and
     * advances it. `put(src)` is the case `length == src.length`.
     */
    method Put(src: array<i8>, length: nat) returns (ok: bool)
      requires Valid() && length <= src.Length && src != store
      modifies this, store
      ensures Valid() && limit == old(limit)
      ensures ok <==> length <= old(Remaining())
      ensures ok ==> position == old(position) + length
      ensures !ok ==> position == old(position)
      ensures forall k :: 0 <= k < store.Length ==>
                store[k] == if ok && old(position) <= k < position then src[k - old(position)] else old(store[k])
    {
      if length > limit - position {
        return false;
      }
      forall i | 0 <= i < length {
        store[position + i] := src[i];
      }
      position := position + length;
      ok := true;
    }
  }
}

/**
 * The fill benchmarks: the same three ways of filling a buffer (with
 * consecutive `int`s, with consecutive bytes, with copies of a source
 * array), once on a plain byte array with hand-written byte-order
 * conversion and once on a ByteBuffer, and writing the filled buffer out.
 */
module ByteBufferBench {
  import opened JavaTypes
  import opened ByteBuffers
  import opened ByteStreams

  /** Byte `k` of the `int`s 0, 1, 2, ... laid out one after another in the given order. */
  function IntFillByte(order: Order, k: nat): i8
  {
    IntBytes(order, k / 4)[k % 4]
  }

  /** The bytes of `int`s 0, 1, 2, ... in the given order, cut to `n` bytes. */
  function IntFill(order: Order, n: nat): seq<i8>
  {
    seq(n, k requires 0 <= k => IntFillByte(order, k))
  }

  /** The bytes of word `i` of the int fill are the bytes of `i`. */
  lemma IntFillWord(order: Order, i: nat, k: nat)
    requires 4 * i <= k < 4 * i + 4
    ensures IntFillByte(order, k) == IntBytes(order, i)[k - 4 * i]
  {
    assert k / 4 == i && k % 4 == k - 4 * i;
  }

  /** The bytes `(byte) 0, (byte) 1, ...`, `n` of them. */
  function ByteFill(n: nat): seq<i8>
  {
    seq(n, k => ToByte(k))
  }

  /** `c` copies of `s`, one after another. */
  function Repeat(s: seq<i8>, c: nat): (r: seq<i8>)
    ensures |r| == c * |s|
  {
    if c == 0 then [] else Repeat(s, c - 1) + s
  }

  /** Word `i` of an int fill holds `i`: read back in the order it was written, it gives `i`. */
  lemma IntFillWords(order: Order, n: nat, i: nat)
    requires 4 * i + 4 <= n && i < 0x8000_0000
    ensures IntFill(order, n)[4 * i..4 * i + 4] == IntBytes(order, i)
    ensures order == LittleEndianOrder ==> DecodeLE(IntFill(order, n)[4 * i..4 * i + 4]) == i
    ensures order == BigEndianOrder ==>
              var w := IntFill(order, n)[4 * i..4 * i + 4];
              DecodeLE([w[3], w[2], w[1], w[0]]) == i
  {
    IntFillSlice(order, n, i);
    if order == LittleEndianOrder {
      LittleEndianRoundTrip(i);
    } else {
      BigEndianRoundTrip(i);
    }
  }

  lemma IntFillSlice(order: Order, n: nat, i: nat)
    requires 4 * i + 4 <= n
    ensures IntFill(order, n)[4 * i..4 * i + 4] == IntBytes(order, i)
  {
    var w := IntFill(order, n)[4 * i..4 * i + 4];
    forall k | 0 <= k < 4
      ensures w[k] == IntBytes(order, i)[k]
    {
      IntFillWord(order, i, 4 * i + k);
    }
  }

  /** The quotient is the number of whole divisors that fit. */
  lemma DivBetween(n: nat, d: nat, c: nat)
    requires d > 0 && c * d <= n < c * d + d
    ensures n / d == c
  {
    var q := n / d;
    assert q * d <= n < q * d + d;
    assert (q + 1) * d == q * d + d && (c + 1) * d == c * d + d;
    MulStrict(c, q + 1, d);
    MulStrict(q, c + 1, d);
  }

  lemma MulStrict(a: int, b: int, d: int)
    requires d > 0 && a * d < b * d
    ensures a < b
  {
  }

  /** A sequence that holds the int-fill bytes at every index is the int fill. */
  lemma IntFillFrom(order: Order, b: seq<i8>)
    requires forall k :: 0 <= k < |b| ==> b[k] == IntFillByte(order, k)
    ensures b == IntFill(order, |b|)
  {
  }

  /** `System.arraycopy(src, 0, dest, destPos, src.length)`: copied as if through a temporary array. */
  method ArrayCopy(src: array<i8>, dest: array<i8>, destPos: nat)
    requires destPos + src.Length <= dest.Length
    modifies dest
    ensures dest[..] == old(dest[..destPos]) + old(src[..]) + old(dest[destPos + src.Length..])
  {
    var tmp := src[..];
    forall i | 0 <= i < |tmp| {
      dest[destPos + i] := tmp[i];
    }
    assert dest[..] == old(dest[..destPos]) + tmp + old(dest[destPos + src.Length..]);
  }

  /**
   * A tester over a byte array: `LEByteArrayTester` or `BEByteArrayTester`
   * by its `order`, which decides the byte order of `copyIntBytes`.
   */
  class ByteArrayTester {
    const buffer: array<i8>
    const order: Order

    constructor (buffer: array<i8>, order: Order)
      ensures this.buffer == buffer && this.order == order
    {
      this.buffer := buffer;
      this.order := order;
    }

    /**
     * `copyIntBytes(value, destination, offset)`: byte k of the word is
     * `(byte) ((value >> 8k) & 0xff)`, the little-endian tester storing it
     * at `offset + k` and the big-endian one at `offset + 3 - k`, in
     * ascending index order. An index past the end throws
     * ArrayIndexOutOfBoundsException (`false`) after the earlier stores.
     */
    method CopyIntBytes(value: i32, destination: array<i8>, offset: nat) returns (ok: bool)
      modifies destination
      ensures ok <==> offset + 4 <= destination.Length
      ensures forall k :: 0 <= k < destination.Length ==>
                destination[k] == if offset <= k < offset + 4 then IntBytes(order, value)[k - offset] else old(destination[k])
    {
      var v: int := value;
      ShiftsCompose(v);
      var b0, b1, b2, b3 := ToByte(v % 0x100), ToByte(v / 0x100 % 0x100), ToByte(v / 0x1_0000 % 0x100), ToByte(v / 0x100_0000 % 0x100);
      ToByteMask(v);
      ToByteMask(v / 0x100);
      ToByteMask(v / 0x1_0000);
      ToByteMask(v / 0x100_0000);
      var w := if order == LittleEndianOrder then [b0, b1, b2, b3] else [b3, b2, b1, b0];
      assert w == IntBytes(order, value);
      if offset >= destination.Length {
        return false;
      }
      destination[offset] := w[0];
      if offset + 1 >= destination.Length {
        return false;
      }
      destination[offset + 1] := w[1];
      if offset + 2 >= destination.Length {
        return false;
      }
      destination[offset + 2] := w[2];
      if offset + 3 >= destination.Length {
        return false;
      }
      destination[offset + 3] := w[3];
      ok := true;
    }

    /**
     * `fillInt()`: `int` i at offset 4i until the offset reaches the end.
     * A length that is not a multiple of 4 ends in an exception from the
     * last, partial word, whose leading bytes are stored all the same.
     */
    method FillInt() returns (ok: bool)
      requires buffer.Length <= MAX_LENGTH
      modifies buffer
      ensures ok <==> buffer.Length % 4 == 0
      ensures buffer[..] == IntFill(order, buffer.Length)
    {
      var i: i32 := 0;
      var offset := 0;
      while offset < buffer.Length
        invariant offset == 4 * i && offset <= buffer.Length
        invariant forall k :: 0 <= k < offset ==> buffer[k] == IntFillByte(order, k)
      {
        ok := CopyIntBytes(i, buffer, offset);
        forall k | offset <= k < buffer.Length && k < offset + 4 {
          IntFillWord(order, i, k);
        }
        if !ok {
          IntFillFrom(order, buffer[..]);
          return;
        }
        i := i + 1;
        offset := offset + 4;
      }
      ok := true;
      IntFillFrom(order, buffer[..]);
    }

    /** `fillByte()`: a byte counter, wrapping at 127, stored at every index. */
    method FillByte()
      modifies buffer
      ensures buffer[..] == ByteFill(buffer.Length)
    {
      var i: i8 := 0;
      var offset := 0;
      while offset < buffer.Length
        invariant 0 <= offset <= buffer.Length && i == ToByte(offset)
        invariant forall k :: 0 <= k < offset ==> buffer[k] == ToByte(k)
      {
        buffer[offset] := i;
        ToByteSucc(offset);
        i := ToByte(i + 1);
        offset := offset + 1;
      }
      assert buffer[..] == ByteFill(buffer.Length);
    }

    /**
     * `fillArray(source)`: whole copies of `source`, one after another,
     * while a whole copy still fits; the bytes after the last copy are
     * left as they were. The source may be the buffer itself.
     */
    method FillArray(source: array<i8>)
      requires source.Length > 0
      modifies buffer
      ensures var copies := buffer.Length / source.Length;
        && buffer[..copies * source.Length] == Repeat(old(source[..]), copies)
        && buffer[copies * source.Length..] == old(buffer[copies * source.Length..])
    {
      ghost var s := source[..];
      ghost var copies: nat := 0;
      var offset := 0;
      var terminateLimit := buffer.Length - source.Length;
      while offset <= terminateLimit
        invariant offset == copies * source.Length <= buffer.Length
        invariant source[..] == s
        invariant source == buffer ==> offset == 0 || offset == buffer.Length
        invariant buffer[..offset] == Repeat(s, copies)
        invariant buffer[offset..] == old(buffer[offset..])
        decreases buffer.Length - offset
      {
        ghost var before := buffer[..offset];
        ArrayCopy(source, buffer, offset);
        assert buffer[..offset + source.Length] == before + s;
        assert (copies + 1) * source.Length == copies * source.Length + source.Length;
        offset := offset + source.Length;
        copies := copies + 1;
      }
      DivBetween(buffer.Length, source.Length, copies);
    }

    /** `write(out)`: the whole array goes to the stream. */
    method Write(out: Sink)
      modifies out
      ensures out.written == old(out.written) + buffer[..]
    {
      out.Write(buffer[..]);
    }
  }

  /** Java's `>> 16` and `>> 24` are single floor divisions; they equal repeated `>> 8`. */
  lemma ShiftsCompose(v: int)
    ensures v / 0x1_0000 == v / 0x100 / 0x100
    ensures v / 0x100_0000 == v / 0x100 / 0x100 / 0x100
  {
  }

  /** A tester over a ByteBuffer (heap or direct, in the order it was given). */
  class ByteBufferTester {
    const buffer: ByteBuffer

    constructor (buffer: ByteBuffer)
      ensures this.buffer == buffer
    {
      this.buffer := buffer;
    }

    /** `fillInt()`: `putInt(i)` while four bytes remain; the Java assertion that `capacity / 4` ints went in is proved. */
    method FillInt()
      requires buffer.Valid()
      modifies buffer, buffer.store
      ensures buffer.Valid() && buffer.limit == buffer.store.Length
      ensures buffer.position == buffer.store.Length / 4 * 4
      ensures buffer.store[..buffer.position] == IntFill(buffer.order, buffer.position)
      ensures forall k :: buffer.position <= k < buffer.store.Length ==> buffer.store[k] == old(buffer.store[k])
    {
      buffer.Clear();
      var i: i32 := 0;
      while buffer.Remaining() >= 4
        invariant buffer.Valid() && buffer.limit == buffer.store.Length && buffer.position == 4 * i
        invariant forall k :: 0 <= k < buffer.position ==> buffer.store[k] == IntFillByte(buffer.order, k)
        invariant forall k :: buffer.position <= k < buffer.store.Length ==> buffer.store[k] == old(buffer.store[k])
        decreases buffer.Remaining()
      {
        var ok := buffer.PutInt(i);
        forall k | 4 * i <= k < 4 * i + 4 {
          IntFillWord(buffer.order, i, k);
        }
        i := i + 1;
      }
      assert i == buffer.store.Length / 4;
      IntFillFrom(buffer.order, buffer.store[..buffer.position]);
    }

    /** `fillByte()`: `put(i)` with a wrapping byte counter until nothing remains; the final counter is `(byte) capacity`. */
    method FillByte()
      requires buffer.Valid()
      modifies buffer, buffer.store
      ensures buffer.Valid() && buffer.position == buffer.limit == buffer.store.Length
      ensures buffer.store[..] == ByteFill(buffer.store.Length)
    {
      buffer.Clear();
      var i: i8 := 0;
      while buffer.Remaining() > 0
        invariant buffer.Valid() && buffer.limit == buffer.store.Length && i == ToByte(buffer.position)
        invariant forall k :: 0 <= k < buffer.position ==> buffer.store[k] == ToByte(k)
        decreases buffer.Remaining()
      {
        var ok := buffer.PutByte(i);
        ToByteSucc(buffer.position - 1);
        i := ToByte(i + 1);
      }
      assert i == ToByte(buffer.store.Length);
      assert buffer.store[..] == ByteFill(buffer.store.Length);
    }

    /** `fillArray(source)`: `put(source)` while a whole copy fits; the Java assertion that less than a copy remains is proved. */
    method FillArray(source: array<i8>)
      requires buffer.Valid() && source.Length > 0 && source != buffer.store
      modifies buffer, buffer.store
      ensures buffer.Valid() && buffer.limit == buffer.store.Length
      ensures var copies := buffer.store.Length / source.Length;
        && buffer.position == copies * source.Length
        && buffer.store[..buffer.position] == Repeat(source[..], copies)
      ensures forall k :: buffer.position <= k < buffer.store.Length ==> buffer.store[k] == old(buffer.store[k])
      ensures buffer.Remaining() < source.Length
    {
      buffer.Clear();
      ghost var copies: nat := 0;
      while buffer.Remaining() >= source.Length
        invariant buffer.Valid() && buffer.limit == buffer.store.Length
        invariant buffer.position == copies * source.Length
        invariant buffer.store[..buffer.position] == Repeat(source[..], copies)
        invariant forall k :: buffer.position <= k < buffer.store.Length ==> buffer.store[k] == old(buffer.store[k])
        decreases buffer.Remaining()
      {
        ghost var before := buffer.store[..buffer.position];
        var ok := buffer.Put(source, source.Length);
        assert buffer.store[..buffer.position] == before + source[..];
        assert (copies + 1) * source.Length == copies * source.Length + source.Length;
        copies := copies + 1;
      }
      assert buffer.Remaining() < source.Length;
      DivBetween(buffer.store.Length, source.Length, copies);
    }

    /** `write(out)`: the whole store goes to the channel, and the Java assertions that it all went are proved. */
    method Write(out: Sink)
      requires buffer.Valid()
      modifies buffer, out
      ensures buffer.Valid() && buffer.position == buffer.limit == buffer.store.Length
      ensures out.written == old(out.written) + buffer.store[..]
    {
      buffer.Rewind();
      var written := out.WriteFrom(buffer);
      assert written == buffer.store.Length;
      assert buffer.Remaining() == 0;
    }
  }
}

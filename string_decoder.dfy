/**
 * The reusable UTF-8 string decoder: a growable character buffer that
 * `reserve` sizes ahead of a string, `decode` fills (doubling it whenever
 * it overflows) and `finish` empties into the finished string. The charset
 * decoder itself is not modelled: a decode call is given the characters it
 * produces for its bytes.
 */
module StringDecoders {
  import opened JavaTypes

  const INITIAL_BUFFER_SIZE: nat := 1024
  /** `1 << SIZE_ALIGNMENT_BITS`. */
  const SIZE_ALIGNMENT: nat := 1024

  /** How `reserve` ends: normally, or with one of the exceptions it can raise. */
  datatype ReserveResult =
    | Reserved
    | NegativeLength    // IllegalArgumentException from reserve itself
    | NotFinished       // IllegalStateException: called between decode and finish
    | AllocationFailed  // IllegalArgumentException from CharBuffer.allocate on a wrapped, negative size

  /**
   * The size `reserve` allocates for `n` characters: `n` itself when it is a
   * multiple of 1024, otherwise `(n + 1024) & ~1023` in 32-bit arithmetic.
   * Clearing the low ten bits of a two's-complement value rounds it down to
   * a multiple of 1024, which is `x - x % 1024` with a non-negative `%`.
   */
  function AlignedSize(n: i32): i32
  {
    if n % SIZE_ALIGNMENT == 0 then n
    else
      var x := ToInt32(n + SIZE_ALIGNMENT);
      x - x % SIZE_ALIGNMENT
  }

  /** For every length that does not overflow, the aligned size is the smallest multiple of 1024 not below it. */
  lemma AlignedSizeRoundsUp(n: i32)
    requires 0 <= n <= 0x7FFF_FC00
    ensures var r := AlignedSize(n);
      r % SIZE_ALIGNMENT == 0 && n <= r && r - SIZE_ALIGNMENT < n
  {
  }

  /** Beyond that, a length that is not a multiple of 1024 wraps the addition and gives a negative size. */
  lemma AlignedSizeWraps(n: i32)
    requires n > 0x7FFF_FC00 && n % SIZE_ALIGNMENT != 0
    ensures AlignedSize(n) < 0
  {
    assert ToInt32(n + SIZE_ALIGNMENT) == n + SIZE_ALIGNMENT - TWO_32;
  }

  class StringDecoder {
    /** The backing array of `outBuffer`; its length is the buffer's capacity. */
    var outBuffer: array<char>
    /** `outBuffer.position()`: the characters decoded so far for the current string. */
    var position: nat

    ghost predicate Valid()
      reads this
    {
      INITIAL_BUFFER_SIZE <= outBuffer.Length && position <= outBuffer.Length
    }

    /** The characters of the string under construction. */
    ghost function Decoded(): seq<char>
      reads this, outBuffer
      requires Valid()
    {
      outBuffer[..position]
    }

    constructor ()
      ensures Valid() && outBuffer.Length == INITIAL_BUFFER_SIZE && position == 0
    {
      outBuffer := new char[INITIAL_BUFFER_SIZE];
      position := 0;
    }

    /**
     * `reserve(expectedLength)`: make room for a string of up to that many
     * characters. Only legal when no string is under construction; a
     * larger buffer is allocated only when the current one is too small.
     */
    method Reserve(expectedLength: i32) returns (r: ReserveResult)
      requires Valid()
      modifies this
      ensures Valid()
      ensures r == NegativeLength <==> expectedLength < 0
      ensures r == NotFinished <==> expectedLength >= 0 && old(position) != 0
      ensures r != Reserved ==> outBuffer == old(outBuffer) && position == old(position)
      ensures r == Reserved ==> position == 0 && expectedLength <= outBuffer.Length
      ensures r == Reserved && expectedLength <= old(outBuffer.Length) ==> outBuffer == old(outBuffer)
      ensures r == Reserved && expectedLength > old(outBuffer.Length) ==>
                fresh(outBuffer) && outBuffer.Length == AlignedSize(expectedLength)
      ensures r == AllocationFailed <==>
                expectedLength >= 0 && old(position) == 0 && expectedLength > old(outBuffer.Length) && AlignedSize(expectedLength) < 0
    {
      if expectedLength < 0 {
        return NegativeLength;
      }
      if position != 0 {
        return NotFinished;
      }
      if expectedLength > outBuffer.Length {
        var desiredLength := expectedLength;
        if desiredLength % SIZE_ALIGNMENT != 0 {
          desiredLength := AlignedSize(expectedLength);
        }
        if desiredLength < 0 {
          return AllocationFailed;
        }
        if expectedLength <= 0x7FFF_FC00 {
          AlignedSizeRoundsUp(expectedLength);
        }
        outBuffer := new char[desiredLength];
      }
      r := Reserved;
    }

    /**
     * `decode(source, offset, length)`: the charset decoder's output for
     * those bytes, `chars`, appended to the string under construction. The
     * decoder fills the buffer as far as it can; each overflow replaces the
     * buffer by one of twice the capacity holding the same prefix. Each
     * decoder call is taken to consume all of its input: bytes ending inside
     * a multi-byte sequence are not modelled.
     */
    method Decode(chars: seq<char>)
      requires Valid()
      modifies this, outBuffer
      ensures Valid() && Decoded() == old(Decoded()) + chars
      // the capacity is doubled just as often as needed: once more than the last doubling would leave too little room
      ensures exists k: nat ::
                && outBuffer.Length == old(outBuffer.Length) * Power2(k)
                && (k > 0 ==> old(outBuffer.Length) * Power2(k - 1) - old(position) < |chars|)
      ensures old(outBuffer.Length) - old(position) >= |chars| ==> outBuffer == old(outBuffer)
    {
      ghost var start := Decoded();
      ghost var k: nat := 0;
      var done := 0;
      while true
        invariant Valid() && 0 <= done <= |chars|
        invariant Decoded() == start + chars[..done]
        invariant outBuffer == old(outBuffer) || fresh(outBuffer)
        invariant outBuffer.Length == old(outBuffer.Length) * Power2(k)
        invariant position == old(position) + done
        invariant k > 0 ==> old(outBuffer.Length) * Power2(k - 1) - old(position) < |chars|
        invariant old(outBuffer.Length) - old(position) >= |chars| ==> outBuffer == old(outBuffer)
        decreases |chars| - done, if position == outBuffer.Length then 1 else 0
      {
        // one call of the charset decoder
        var n := Put(chars[done..]);
        TakeMore(chars, done, n);
        Regroup(start, chars[..done], chars[done..][..n]);
        done := done + n;
        if done < |chars| {
          // OVERFLOW: double the buffer and retry
          assert position == outBuffer.Length;
          Grow();
          PowerStep(old(outBuffer.Length), k);
          k := k + 1;
        }
        if done == |chars| {
          break;
        }
      }
      assert chars[..done] == chars;
    }

    /** One charset-decoder call: as many of `rest` as fit in the room left. */
    method Put(rest: seq<char>) returns (n: nat)
      requires Valid()
      modifies this, outBuffer
      ensures Valid() && outBuffer == old(outBuffer)
      ensures n == (if outBuffer.Length - old(position) < |rest| then outBuffer.Length - old(position) else |rest|)
      ensures Decoded() == old(Decoded()) + rest[..n]
    {
      var room := outBuffer.Length - position;
      n := if room < |rest| then room else |rest|;
      forall i | 0 <= i < n {
        outBuffer[position + i] := rest[i];
      }
      assert outBuffer[..position + n] == outBuffer[..position] + rest[..n];
      position := position + n;
    }

    /** The overflow step: a buffer of twice the capacity holding the same characters at the same position. */
    method Grow()
      requires Valid()
      modifies this
      ensures Valid() && fresh(outBuffer) && outBuffer.Length == 2 * old(outBuffer.Length)
      ensures position == old(position) && Decoded() == old(Decoded())
    {
      var next := new char[outBuffer.Length * 2];
      forall i | 0 <= i < position {
        next[i] := outBuffer[i];
      }
      assert next[..position] == outBuffer[..position];
      outBuffer := next;
    }

    /**
     * `finish(source, offset, length)`: decodes the last bytes, flushes the
     * decoder (which has nothing left to add) and returns the whole string,
     * leaving the buffer empty so that `reserve` is legal again.
     */
    method Finish(chars: seq<char>) returns (out: seq<char>)
      requires Valid()
      modifies this, outBuffer
      ensures Valid() && position == 0
      ensures out == old(Decoded()) + chars
    {
      Decode(chars);
      out := outBuffer[..position];
      position := 0;
    }
  }

  lemma PowerStep(n: nat, k: nat)
    ensures 2 * (n * Power2(k)) == n * Power2(k + 1)
  {
  }

  /** 2 to the power `k`. */
  function Power2(k: nat): (p: nat)
    ensures p >= 1
  {
    if k == 0 then 1 else 2 * Power2(k - 1)
  }
}

/**
 * The little-endian `int` codec the blocking servers use for their length
 * prefixes, and the client's outgoing-message setter built on it. An index
 * outside the array, which Java answers with ArrayIndexOutOfBoundsException,
 * is the `None`/`false` outcome.
 */
module ServerBase {
  import opened JavaTypes

  /** The four bytes at `offset` exist. */
  predicate InBounds(length: int, offset: int)
  {
    0 <= offset && offset + 4 <= length
  }

  /**
   * `bytesToInt(bytes, offset)`: each byte masked to its unsigned value and
   * shifted into place, byte `offset + 3` the most significant; the sum of
   * the four disjoint bit ranges is the bitwise or, wrapped to 32 bits.
   */
  function BytesToInt(bytes: array<i8>, offset: int): (r: Option<i32>)
    reads bytes
    ensures r.Some? <==> InBounds(bytes.Length, offset)
    ensures r.Some? ==> r.value == DecodeLE(bytes[offset..offset + 4])
  {
    if !InBounds(bytes.Length, offset) then None
    else
      var length := Unsigned(bytes[offset + 3]) * 0x100_0000;
      var length := length + Unsigned(bytes[offset + 2]) * 0x1_0000;
      var length := length + Unsigned(bytes[offset + 1]) * 0x100;
      var length := length + Unsigned(bytes[offset + 0]);
      Some(ToInt32(length))
  }

  /**
   * `intToBytes(value, bytes, offset)`: the low byte of `value` at
   * `offset`, then, shifting `value` right by 8 each time, the next three
   * bytes after it. Writes stop at the first index outside the array, as
   * the exception does.
   */
  method IntToBytes(value: i32, bytes: array<i8>, offset: int) returns (ok: bool)
    modifies bytes
    ensures ok <==> InBounds(bytes.Length, offset)
    ensures forall i :: 0 <= i < bytes.Length ==>
              bytes[i] == (if 0 <= offset <= i < offset + 4 then LittleEndian(value)[i - offset] else old(bytes[i]))
  {
    var v: int := value;
    if !(0 <= offset < bytes.Length) {
      return false;
    }
    ToByteMask(v);
    bytes[offset] := ToByte(v % 0x100);
    v := v / 0x100;
    if offset + 1 >= bytes.Length {
      return false;
    }
    ToByteMask(v);
    bytes[offset + 1] := ToByte(v % 0x100);
    v := v / 0x100;
    if offset + 2 >= bytes.Length {
      return false;
    }
    ToByteMask(v);
    bytes[offset + 2] := ToByte(v % 0x100);
    v := v / 0x100;
    if offset + 3 >= bytes.Length {
      return false;
    }
    ToByteMask(v);
    bytes[offset + 3] := ToByte(v % 0x100);
    ok := true;
  }

  /** Round trip: four bytes written by `intToBytes` read back by `bytesToInt` give the value, negatives included. */
  lemma IntBytesRoundTrip(value: i32, bytes: array<i8>, offset: int)
    requires InBounds(bytes.Length, offset) && bytes[offset..offset + 4] == LittleEndian(value)
    ensures BytesToInt(bytes, offset) == Some(value)
  {
    LittleEndianRoundTrip(value);
  }

  /** The client side of a blocking server connection: the framed message it echoes. Socket streams are not modelled. */
  class Client {
    const lengthBytes: array<i8>
    var message: array<i8>

    /** A client starts with an empty message, so its first read has an array to compare lengths with. */
    constructor ()
      ensures fresh(lengthBytes) && lengthBytes.Length == 4 && message.Length == 0
    {
      lengthBytes := new i8[4];
      message := new i8[0];
    }

    /** `setMessage(m)`: the little-endian length of `m` in `lengthBytes`, and `m` itself (the same array) as the message. */
    method SetMessage(m: array<i8>)
      requires lengthBytes.Length == 4 && m.Length < 0x8000_0000
      modifies this, lengthBytes
      ensures lengthBytes[..] == LittleEndian(m.Length) && message == m
      ensures BytesToInt(lengthBytes, 0) == Some(m.Length as i32)
    {
      var ok := IntToBytes(m.Length as i32, lengthBytes, 0);
      assert lengthBytes[..] == lengthBytes[0..0 + 4];
      IntBytesRoundTrip(m.Length as i32, lengthBytes, 0);
      message := m;
    }
  }
}

/**
 * Java's fixed-width integers and the byte/int conversions that the
 * framing code, the server helpers and the array testers all rely on.
 * A Java `byte` is the signed subset type `i8`, a Java `int` is `i32`;
 * wrap-around is written out explicitly.
 */
module JavaTypes {

  type i8 = x: int | -0x80 <= x < 0x80
  type i32 = x: int | -0x8000_0000 <= x < 0x8000_0000
  /** An unsigned byte, as in C++'s `char` buffers. */
  type u8 = x: int | 0 <= x < 0x100

  const TWO_32: int := 0x1_0000_0000

  /** A Java reference that may be null. */
  datatype Option<T> = None | Some(value: T)

  /** `b & 0xff`: the unsigned value of a Java byte. */
  function Unsigned(b: i8): (u: int)
    ensures 0 <= u < 0x100
    ensures u == b || u == b + 0x100
  {
    if b < 0 then b + 0x100 else b
  }

  /** Java's narrowing cast `(byte) x`: keep the low eight bits, read them as signed. */
  function ToByte(x: int): (b: i8)
    ensures Unsigned(b) == x % 0x100
  {
    var m := x % 0x100;
    if m < 0x80 then m else m - 0x100
  }

  /** Masking with `0xff` before the narrowing cast changes nothing. */
  lemma ToByteMask(x: int)
    ensures ToByte(x % 0x100) == ToByte(x)
  {
    assert (x % 0x100) % 0x100 == x % 0x100;
  }

  /** Incrementing a byte with wrap-around: `(byte) (b + 1)` for `b == (byte) x` is `(byte) (x + 1)`. */
  lemma ToByteSucc(x: int)
    ensures ToByte(ToByte(x) + 1) == ToByte(x + 1)
  {
    assert (ToByte(x) + 1) % 0x100 == (x + 1) % 0x100;
  }

  /** Java's 32-bit `int` wrap-around of a mathematical integer. */
  function ToInt32(x: int): (r: i32)
    ensures 0 <= x < 0x8000_0000 ==> r == x
    ensures 0x8000_0000 <= x < TWO_32 ==> r == x - TWO_32
  {
    var m := x % TWO_32;
    if m < 0x8000_0000 then m else m - TWO_32
  }

  /**
   * The four bytes of `v`, least significant first: byte k is
   * `(byte) ((v >> 8k) & 0xff)`. Java's `>>` on `int` is an arithmetic
   * shift, i.e. floor division, which is Dafny's `/` for a positive divisor.
   */
  function LittleEndian(v: int): (b: seq<i8>)
    ensures |b| == 4
    ensures b[0] == ToByte(v) && b[3] == ToByte(v / 256 / 256 / 256)
  {
    [ToByte(v), ToByte(v / 256), ToByte(v / 256 / 256), ToByte(v / 256 / 256 / 256)]
  }

  /** The same four bytes, most significant first. */
  function BigEndian(v: int): (b: seq<i8>)
    ensures |b| == 4
    ensures forall k :: 0 <= k < 4 ==> b[k] == LittleEndian(v)[3 - k]
  {
    [ToByte(v / 256 / 256 / 256), ToByte(v / 256 / 256), ToByte(v / 256), ToByte(v)]
  }

  /** The unsigned value of four bytes combined least significant first. */
  function UnsignedLE(b: seq<i8>): (u: int)
    requires |b| == 4
    ensures 0 <= u < TWO_32
  {
    Unsigned(b[0]) + 0x100 * Unsigned(b[1]) + 0x1_0000 * Unsigned(b[2]) + 0x100_0000 * Unsigned(b[3])
  }

  /**
   * Four bytes read as a little-endian Java `int`: the byte-wise unsigned
   * combination, wrapped to 32 bits. The sign comes from the last byte.
   */
  function DecodeLE(b: seq<i8>): (r: i32)
    requires |b| == 4
  {
    ToInt32(UnsignedLE(b))
  }

  /** The sign of a little-endian `int` is the sign of its last byte, and its low byte is the first. */
  lemma DecodeLESignAndLowByte(b: seq<i8>)
    requires |b| == 4
    ensures DecodeLE(b) < 0 <==> b[3] < 0
    ensures Unsigned(ToByte(DecodeLE(b))) == Unsigned(b[0])
  {
    var u := UnsignedLE(b);
    var high := Unsigned(b[1]) + 0x100 * Unsigned(b[2]) + 0x1_0000 * Unsigned(b[3]);
    assert u == Unsigned(b[0]) + 0x100 * high;
    assert 0 <= Unsigned(b[0]) + 0x100 * Unsigned(b[1]) + 0x1_0000 * Unsigned(b[2]) < 0x100_0000;
    assert u % 0x100 == Unsigned(b[0]);
    ToInt32Mod(u);
  }

  /** Wrapping keeps the value modulo 2^32 (helper for DecodeLE). */
  lemma ToInt32Mod(u: int)
    requires 0 <= u < TWO_32
    ensures ToInt32(u) % 0x100 == u % 0x100
  {
    if u >= 0x8000_0000 {
      assert ToInt32(u) == u - TWO_32;
      assert u - TWO_32 == u + 0x100 * (-0x100_0000);
    }
  }

  /**
   * Round trip: the four bytes of every 32-bit value, read back as a
   * little-endian `int`, give the value again (negative values included).
   */
  lemma {:induction false} LittleEndianRoundTrip(v: i32)
    ensures DecodeLE(LittleEndian(v)) == v
  {
    var q1 := v / 256;
    var q2 := q1 / 256;
    var q3 := q2 / 256;
    var q4 := q3 / 256;
    assert v == 256 * q1 + v % 256;
    assert q1 == 256 * q2 + q1 % 256;
    assert q2 == 256 * q3 + q2 % 256;
    assert q3 == 256 * q4 + q3 % 256;
    var s := UnsignedLE(LittleEndian(v));
    assert s == v % 256 + 0x100 * (q1 % 256) + 0x1_0000 * (q2 % 256) + 0x100_0000 * (q3 % 256);
    assert s == v - TWO_32 * q4;
    assert q4 == 0 || q4 == -1;
  }

  /** Read back most significant byte first, the big-endian bytes give the value again. */
  lemma BigEndianRoundTrip(v: i32)
    ensures DecodeLE([BigEndian(v)[3], BigEndian(v)[2], BigEndian(v)[1], BigEndian(v)[0]]) == v
  {
    assert [BigEndian(v)[3], BigEndian(v)[2], BigEndian(v)[1], BigEndian(v)[0]] == LittleEndian(v);
    LittleEndianRoundTrip(v);
  }

  /** Concatenation regrouped, for steps the solver does not take by itself. */
  lemma Regroup<T>(a: seq<T>, b: seq<T>, c: seq<T>)
    ensures (a + b) + c == a + (b + c)
  {
  }

  /** A prefix that agrees for `i` elements and then for `k` more agrees for `i + k`. */
  lemma PrefixExtend<T>(o: seq<T>, u: seq<T>, i: nat, k: nat)
    requires i + k <= |o| && i + k <= |u|
    requires o[..i] == u[..i] && o[i..i + k] == u[i..][..k]
    ensures o[..i + k] == u[..i + k]
  {
    assert o[..i + k] == o[..i] + o[i..i + k];
    assert u[..i + k] == u[..i] + u[i..][..k];
  }

  /** The first `k` elements of a slice starting at `lo` are the slice of length `k` there. */
  lemma SliceTake<T>(s: seq<T>, lo: nat, hi: nat, k: nat)
    requires lo + k <= hi <= |s|
    ensures s[lo..hi][..k] == s[lo..lo + k]
  {
    assert forall j | 0 <= j < k :: s[lo..hi][..k][j] == s[lo + j];
  }

  /** Dropping fewer elements than the front part holds drops them from the front part only. */
  lemma DropFromFront<T>(a: seq<T>, b: seq<T>, k: nat)
    requires k <= |a|
    ensures (a + b)[k..] == a[k..] + b
  {
  }

  /** The first `i + k` elements are the first `i`, then the first `k` of what follows them. */
  lemma TakeMore<T>(s: seq<T>, i: nat, k: nat)
    requires i + k <= |s|
    ensures s[..i + k] == s[..i] + s[i..][..k]
  {
  }

  /** Sequences that agree from `i` on agree from any later index on. */
  lemma DropMore<T>(a: seq<T>, b: seq<T>, i: nat, k: nat)
    requires i + k <= |a| == |b| && a[i..] == b[i..]
    ensures a[i + k..] == b[i + k..]
  {
    assert a[i + k..] == a[i..][k..];
    assert b[i + k..] == b[i..][k..];
  }
}

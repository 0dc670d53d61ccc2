/** Machine words of the C# program and the byte-level conversions it uses. */
module Bytes {

  /** A C# `byte`. */
  type Byte = bv8

  /** A C# `ushort`. */
  type UShort = bv16

  /** A C# `int` as its 32-bit two's-complement pattern, as the shift-and-truncate conversions see it. */
  type Int32Bits = bv32

  /** A C# `short`. */
  type Int16 = x: int | -0x8000 <= x < 0x8000

  /** A value that may be absent (a C# `null` reference, a failed TryParse). */
  datatype Option<T> = None | Some(value: T)

  /** A value or the exception the C# code would throw instead. */
  datatype Result<T, E> = Ok(value: T) | Err(error: E)

  /** `(byte)(x >> 8)` on an integer: floor division by 256, then the low 8 bits. */
  function ByteAbove8(x: int): Byte {
    ((x / 256) % 256) as Byte
  }

  /** `(byte)x` on an integer: its low 8 bits. */
  function LowByteOf(x: int): Byte {
    (x % 256) as Byte
  }

  /** `(byte)(x >> 8)` on a C# int: bits 8 to 15, whether the shift is arithmetic or not. */
  function Byte1(x: Int32Bits): Byte {
    ((x >> 8) & 0xFF) as Byte
  }

  /** `(byte)x`, equally `(byte)(x & 0xFF)`, on a C# int: bits 0 to 7. */
  function Byte0(x: Int32Bits): Byte {
    (x & 0xFF) as Byte
  }

  /** The bit pattern of a C# int holding `n`, counted up from zero: `n` modulo 2^32. */
  function Bits(n: nat): Int32Bits {
    if n == 0 then 0 else Bits(n - 1) + 1
  }

  /** `(byte)(w >> 8)` on a ushort. */
  function Hi(w: UShort): Byte {
    (w >> 8) as Byte
  }

  /** `(byte)(w & 0xFF)` on a ushort. */
  function Lo(w: UShort): Byte {
    (w & 0xFF) as Byte
  }

  /** `BitConverter.ToUInt16(bytes, i)` on a little-endian machine: `lo` at i, `hi` at i + 1. */
  function WordLE(lo: Byte, hi: Byte): (w: UShort)
    ensures Lo(w) == lo && Hi(w) == hi
  {
    ((hi as UShort) << 8) | (lo as UShort)
  }

  /** Splitting a word into its two bytes and joining them again gives the word back. */
  lemma WordLESplit(w: UShort)
    ensures WordLE(Lo(w), Hi(w)) == w
  {
  }

  /** The little-endian word of two bytes has the value `lo + 256 * hi`. */
  lemma WordLEValue(lo: Byte, hi: Byte)
    ensures UShortValue(WordLE(lo, hi)) == ByteValue(lo) + 256 * ByteValue(hi)
  {
  }

  /** Two ushorts of the same value are the same ushort. */
  lemma UShortValueInjective(a: UShort, b: UShort)
    requires UShortValue(a) == UShortValue(b)
    ensures a == b
  {
    assert (a as int) as UShort == a;
    assert (b as int) as UShort == b;
  }

  /** The numeric value of a byte. */
  function ByteValue(b: Byte): (n: int)
    ensures 0 <= n < 256
  {
    b as int
  }

  /** The numeric value of a ushort. */
  function UShortValue(w: UShort): (n: nat)
    ensures n < 0x10000
  {
    w as int
  }

  /** A number in byte range converts to the byte of that value. */
  lemma ByteValueOf(n: int)
    requires 0 <= n < 256
    ensures ByteValue(n as Byte) == n
  {
  }

  /** `BitConverter.ToInt16(bytes, i)` on a little-endian machine: the two's-complement reading. */
  function ToInt16(lo: Byte, hi: Byte): (v: Int16)
    ensures v == ByteValue(lo) + 256 * ByteValue(hi) || v == ByteValue(lo) + 256 * ByteValue(hi) - 0x10000
  {
    var u := ByteValue(lo) + 256 * ByteValue(hi);
    if u < 0x8000 then u else u - 0x10000
  }

  /** Reading back the two low bytes of a short recovers it. */
  lemma ToInt16OfBytes(v: Int16)
    ensures ToInt16(LowByteOf(v), ByteAbove8(v)) == v
  {
    var lo, hi := v % 256, (v / 256) % 256;
    ByteValueOf(lo);
    ByteValueOf(hi);
    if v >= 0 {
      assert v == lo + 256 * hi;
    } else {
      assert v / 256 == hi - 256;
      assert v == lo + 256 * hi - 0x10000;
    }
  }

  /** The bytes of a ushort array in big-endian order, as the frame builder lays them out. */
  function BigEndian(ws: seq<UShort>): (r: seq<Byte>)
    ensures |r| == 2 * |ws|
  {
    if ws == [] then [] else BigEndian(ws[..|ws| - 1]) + [Hi(ws[|ws| - 1]), Lo(ws[|ws| - 1])]
  }

  /** Word i of `ws` occupies bytes 2i (high) and 2i + 1 (low) of `BigEndian(ws)`. */
  lemma {:induction false} BigEndianAt(ws: seq<UShort>, i: nat)
    requires i < |ws|
    ensures BigEndian(ws)[2 * i] == Hi(ws[i])
    ensures BigEndian(ws)[2 * i + 1] == Lo(ws[i])
  {
    var n := |ws|;
    if i < n - 1 {
      var front := ws[..n - 1];
      BigEndianAt(front, i);
      assert front[i] == ws[i];
    }
  }

  /** `n` zero bytes: the contents of a fresh C# byte array. */
  function Zeros(n: nat): (r: seq<Byte>)
    ensures |r| == n && forall i :: 0 <= i < n ==> r[i] == 0
  {
    seq(n, _ => 0)
  }

  /** The byte `Encoding.ASCII` writes for a character: its code below 128, '?' otherwise. */
  function AsciiByte(c: char): (b: Byte)
    ensures c as int < 128 ==> ByteValue(b) == c as int
    ensures c as int >= 128 ==> b == 0x3F
  {
    var code := c as int;
    if code < 128 then ByteValueOf(code); code as Byte else 0x3F
  }

  /** `Encoding.ASCII.GetBytes`: one byte per character. */
  function AsciiBytes(s: string): (b: seq<Byte>)
    ensures |b| == |s| && forall i :: 0 <= i < |s| ==> b[i] == AsciiByte(s[i])
  {
    seq(|s|, i requires 0 <= i < |s| => AsciiByte(s[i]))
  }
}

/**
 * Java's fixed-width integers and the little-endian byte images that the
 * binary row format writes them as.
 *
 * A Java `byte` in a `byte[]` is kept here as its unsigned pattern (`b & 0xFF`),
 * the type `Byte`; signed values are int subset types of the exact Java range.
 */
module JavaInts {

  const TWO_7: int := 0x80
  const TWO_8: int := 0x100
  const TWO_31: int := 0x8000_0000
  const TWO_32: int := 0x1_0000_0000
  const TWO_63: int := 0x8000_0000_0000_0000
  const TWO_64: int := 0x1_0000_0000_0000_0000

  /** One element of a Java byte[], as the unsigned pattern of its eight bits. */
  type Byte = b: int | 0 <= b < 0x100

  /** Java byte, int and long. */
  type int8 = x: int | -0x80 <= x < 0x80
  type int32 = x: int | -0x8000_0000 <= x < 0x8000_0000
  type int64 = x: int | -0x8000_0000_0000_0000 <= x < 0x8000_0000_0000_0000

  const INT_MIN: int32 := -0x8000_0000
  const LONG_MIN: int64 := -0x8000_0000_0000_0000

  function Pow256(w: nat): (p: nat)
    ensures p > 0
  {
    if w == 0 then 1 else 256 * Pow256(w - 1)
  }

  /**
   * The w low bytes of u, least significant first: what the loop
   * `for (i < w) { bytes[offset++] = (byte) (u & 255); u >>>= 8; }` stores.
   */
  function LEBytes(u: nat, w: nat): (b: seq<Byte>)
    ensures |b| == w
  {
    if w == 0 then [] else [u % 256] + LEBytes(u / 256, w - 1)
  }

  /** The unsigned number a little-endian byte sequence denotes. */
  function LE(b: seq<Byte>): nat
  {
    if b == [] then 0 else b[0] + 256 * LE(b[1..])
  }

  /** Reading back the w bytes written for a number below 256^w gives that number. */
  lemma {:induction false} LEBytesRoundTrip(u: nat, w: nat)
    requires u < Pow256(w)
    ensures LE(LEBytes(u, w)) == u
  {
    if w > 0 {
      var rest := LEBytes(u / 256, w - 1);
      assert ([u % 256] + rest)[1..] == rest;
      assert u / 256 < Pow256(w - 1);
      LEBytesRoundTrip(u / 256, w - 1);
    }
  }

  /** w bytes never denote a number of 256^w or more. */
  lemma {:induction false} LEBound(b: seq<Byte>)
    ensures LE(b) < Pow256(|b|)
  {
    if b != [] {
      LEBound(b[1..]);
    }
  }

  /** Adding byte i at weight 256^i extends the value of the first i bytes to i + 1 bytes. */
  lemma {:induction false} LEPrefixStep(b: seq<Byte>, i: nat)
    requires i < |b|
    ensures LE(b[..i + 1]) == LE(b[..i]) + b[i] * Pow256(i)
  {
    if i == 0 {
      assert b[..1][1..] == [];
      assert b[..0] == [];
    } else {
      var t := b[1..];
      assert b[..i + 1][1..] == t[..i];
      assert b[..i][1..] == t[..i - 1];
      LEPrefixStep(t, i - 1);
      assert t[i - 1] == b[i];
      assert b[i] * Pow256(i) == 256 * (b[i] * Pow256(i - 1));
    }
  }

  /** Two's complement of a Java int: the bit pattern as an unsigned number, and back. */
  function Signed32(u: nat): (n: int32)
    requires u < TWO_32
    ensures n % TWO_32 == u
  {
    if u < TWO_31 then u else u - TWO_32
  }

  function Unsigned32(n: int32): (u: nat)
    ensures u < TWO_32 && Signed32(u) == n
  {
    n % TWO_32
  }

  function Signed64(u: nat): (n: int64)
    requires u < TWO_64
    ensures n % TWO_64 == u
  {
    if u < TWO_63 then u else u - TWO_64
  }

  function Unsigned64(n: int64): (u: nat)
    ensures u < TWO_64 && Signed64(u) == n
  {
    n % TWO_64
  }

  /** `(byte) x` read back as a signed Java byte. */
  function Signed8(b: Byte): (n: int8)
    ensures n % TWO_8 == b
  {
    if b < TWO_7 then b else b - TWO_8
  }

  /** The low eight bits of any Java int, as the cast `(byte) x` keeps them. */
  function LowByte(x: int): (b: Byte)
    ensures -TWO_7 <= x < TWO_7 ==> Signed8(b) == x
  {
    x % TWO_8
  }

  /** Java's `int` and `long` arithmetic: the exact result reduced to the type's range. */
  function Wrap32(x: int): (n: int32)
    ensures (n - x) % TWO_32 == 0
  {
    Signed32(x % TWO_32)
  }

  function Wrap64(x: int): (n: int64)
    ensures (n - x) % TWO_64 == 0
  {
    Signed64(x % TWO_64)
  }

  /** The four bytes `writeInt` stores for n, and the int `readInt` assembles from four bytes. */
  function IntBytes(n: int32): (b: seq<Byte>)
    ensures |b| == 4
  {
    LEBytes(Unsigned32(n), 4)
  }

  function IntOf(b: seq<Byte>): int32
    requires |b| == 4
  {
    LEBound(b);
    assert Pow256(4) == TWO_32;
    Signed32(LE(b))
  }

  function LongBytes(n: int64): (b: seq<Byte>)
    ensures |b| == 8
  {
    LEBytes(Unsigned64(n), 8)
  }

  function LongOf(b: seq<Byte>): int64
    requires |b| == 8
  {
    LEBound(b);
    assert Pow256(8) == TWO_64;
    Signed64(LE(b))
  }

  lemma IntRoundTrip(n: int32)
    ensures IntOf(IntBytes(n)) == n
  {
    assert Pow256(4) == TWO_32;
    LEBytesRoundTrip(Unsigned32(n), 4);
  }

  lemma LongRoundTrip(n: int64)
    ensures LongOf(LongBytes(n)) == n
  {
    assert Pow256(8) == TWO_64;
    LEBytesRoundTrip(Unsigned64(n), 8);
  }

  /** Conversely, every four bytes are the image of the int they are read as. */
  lemma IntBytesOf(b: seq<Byte>)
    requires |b| == 4
    ensures IntBytes(IntOf(b)) == b
  {
    assert Pow256(4) == TWO_32;
    LEBound(b);
    LEOfLEBytes(b);
  }

  lemma {:induction false} LEOfLEBytes(b: seq<Byte>)
    ensures LEBytes(LE(b), |b|) == b
  {
    if b != [] {
      LEOfLEBytes(b[1..]);
      assert LE(b) % 256 == b[0];
      assert LE(b) / 256 == LE(b[1..]);
    }
  }
}

/**
 * ByteArrayUtil: fixed-width little-endian writers and readers over a caller's
 * byte[] with an offset cursor, plus length-prefixed byte strings.
 *
 * Each reader is specified by a function that consumes its bytes from the
 * front of a sequence (`ReadIntFrom` and friends); each writer by the bytes it
 * stores (`IntBytes` and friends). The `...Written` lemmas are the round trips.
 * A Java `String` enters this layer as its UTF-8 bytes (`JBytes`).
 */
module ByteArrayUtil {
  import opened Wrappers
  import opened JavaInts

  /** The exceptions the codec can end in. */
  datatype Error =
    | OutOfBounds              // ArrayIndexOutOfBoundsException on the byte[] (or on a types array)
    | NegativeLength(n: int)   // NegativeArraySizeException for a negative length read back
    | BadHeader                // "Expected 'ROWS'."
    | BadFormat(tag: int)      // a discriminant other than 'H' and 'A'
    | BadPresence(b: int)      // "Expected 1." for a presence byte other than 0 and 1
    | UnexpectedType(tag: int) // "Unexpected type=..." for an unknown type tag
    | UnsupportedClass         // "... is not for custom serialization."
    | ClassCast                // a value whose class differs from its column's cached type
    | LengthMismatch           // "item.values.length != n."
    | NullKey                  // NullPointerException hashing a null key while rebuilding a map
    | SerializedForm           // the 'H' body, Java object serialization (not modelled)

  /** The bytes of a Java byte[]: never 2^31 or more of them. */
  type JBytes = s: seq<Byte> | |s| < TWO_31 witness []

  /** `writeString`: four-byte length, then the bytes. */
  function StringBytes(s: JBytes): (b: seq<Byte>)
    ensures |b| == 4 + |s|
  {
    IntBytes(|s|) + s
  }

  /** `writeBoolean`: 1 for true, 0 for false. */
  function BooleanByte(z: bool): Byte
  {
    if z then 1 else 0
  }

  /** rest is what is left of s once a reader has consumed a prefix. */
  predicate IsRest(s: seq<Byte>, rest: seq<Byte>)
  {
    |rest| <= |s| && rest == s[|s| - |rest|..]
  }

  // ---------------------------------------------------------------------------
  // Readers as functions: each consumes its bytes from the front and returns
  // the value and the bytes after it

  function ReadByteFrom(s: seq<Byte>): (r: Result<(int8, seq<Byte>), Error>)
  {
    if |s| >= 1 then Success((Signed8(s[0]), s[1..])) else Failure(OutOfBounds)
  }

  function ReadIntFrom(s: seq<Byte>): (r: Result<(int32, seq<Byte>), Error>)
  {
    if |s| >= 4 then Success((IntOf(s[..4]), s[4..])) else Failure(OutOfBounds)
  }

  function ReadLongFrom(s: seq<Byte>): (r: Result<(int64, seq<Byte>), Error>)
  {
    if |s| >= 8 then Success((LongOf(s[..8]), s[8..])) else Failure(OutOfBounds)
  }

  /** `readBoolean`: any non-zero byte is true. */
  function ReadBooleanFrom(s: seq<Byte>): (r: Result<(bool, seq<Byte>), Error>)
  {
    if |s| >= 1 then Success((s[0] != 0, s[1..])) else Failure(OutOfBounds)
  }

  /**
   * `readString`: a length of Integer.MIN_VALUE stands for null; any other
   * negative length fails allocating the buffer; otherwise the next `length` bytes.
   */
  function ReadStringFrom(s: seq<Byte>): (r: Result<(Option<JBytes>, seq<Byte>), Error>)
  {
    var r :- ReadIntFrom(s);
    var (length, rest) := r;
    if length == INT_MIN then Success((None, rest))
    else if length < 0 then Failure(NegativeLength(length))
    else if length <= |rest| then Success((Some(rest[..length]), rest[length..]))
    else Failure(OutOfBounds)
  }

  /** `readDate`: Long.MIN_VALUE stands for null, any other long is epoch milliseconds. */
  function ReadDateFrom(s: seq<Byte>): (r: Result<(Option<int64>, seq<Byte>), Error>)
  {
    var r :- ReadLongFrom(s);
    if r.0 == LONG_MIN then Success((None, r.1)) else Success((Some(r.0), r.1))
  }

  /** The bytes from offset on; none when the offset is past the end. */
  function Suffix(s: seq<Byte>, offset: nat): seq<Byte>
  {
    if offset <= |s| then s[offset..] else []
  }

  /** A reader's outcome on a buffer of the given length, with the rest turned back into an offset. */
  function Positioned<T>(r: Result<(T, seq<Byte>), Error>, length: nat): Result<(T, nat), Error>
  {
    match r
    case Success((v, rest)) => Success((v, if |rest| <= length then length - |rest| else 0))
    case Failure(e) => Failure(e)
  }

  /** Each reader leaves a suffix of its input. */
  lemma ReadersLeaveRest(s: seq<Byte>)
    ensures ReadByteFrom(s).Success? ==> IsRest(s, ReadByteFrom(s).value.1)
    ensures ReadIntFrom(s).Success? ==> IsRest(s, ReadIntFrom(s).value.1)
    ensures ReadLongFrom(s).Success? ==> IsRest(s, ReadLongFrom(s).value.1)
    ensures ReadBooleanFrom(s).Success? ==> IsRest(s, ReadBooleanFrom(s).value.1)
    ensures ReadStringFrom(s).Success? ==> IsRest(s, ReadStringFrom(s).value.1)
    ensures ReadDateFrom(s).Success? ==> IsRest(s, ReadDateFrom(s).value.1)
  {
  }

  /** The bytes a reader leaves are the buffer from the offset its method returns. */
  lemma RestAt(b: seq<Byte>, offset: nat, rest: seq<Byte>)
    requires IsRest(Suffix(b, offset), rest)
    ensures Suffix(b, |b| - |rest|) == rest
  {
  }

  // ---------------------------------------------------------------------------
  // Round trips: what a writer stores, the matching reader returns

  lemma ReadByteWritten(b: int8, rest: seq<Byte>)
    ensures ReadByteFrom([LowByte(b)] + rest) == Success((b, rest))
  {
    assert ([LowByte(b)] + rest)[1..] == rest;
  }

  lemma ReadIntWritten(n: int32, rest: seq<Byte>)
    ensures ReadIntFrom(IntBytes(n) + rest) == Success((n, rest))
  {
    assert (IntBytes(n) + rest)[..4] == IntBytes(n);
    assert (IntBytes(n) + rest)[4..] == rest;
    IntRoundTrip(n);
  }

  lemma ReadLongWritten(n: int64, rest: seq<Byte>)
    ensures ReadLongFrom(LongBytes(n) + rest) == Success((n, rest))
  {
    assert (LongBytes(n) + rest)[..8] == LongBytes(n);
    assert (LongBytes(n) + rest)[8..] == rest;
    LongRoundTrip(n);
  }

  lemma ReadBooleanWritten(z: bool, rest: seq<Byte>)
    ensures ReadBooleanFrom([BooleanByte(z)] + rest) == Success((z, rest))
  {
    assert ([BooleanByte(z)] + rest)[1..] == rest;
  }

  lemma ReadStringWritten(str: JBytes, rest: seq<Byte>)
    ensures ReadStringFrom(StringBytes(str) + rest) == Success((Some(str), rest))
  {
    assert StringBytes(str) + rest == IntBytes(|str|) + (str + rest);
    ReadIntWritten(|str|, str + rest);
    assert (str + rest)[..|str|] == str;
    assert (str + rest)[|str|..] == rest;
  }

  /** A date round-trips unless its time is Long.MIN_VALUE, which reads back as null. */
  lemma ReadDateWritten(millis: int64, rest: seq<Byte>)
    ensures millis != LONG_MIN ==> ReadDateFrom(LongBytes(millis) + rest) == Success((Some(millis), rest))
    ensures millis == LONG_MIN ==> ReadDateFrom(LongBytes(millis) + rest) == Success((None, rest))
  {
    ReadLongWritten(millis, rest);
  }

  // ---------------------------------------------------------------------------
  // The imperative writers and readers over a byte[] and an offset

  /**
   * A writer that fails with e at position `at`, where its specification
   * yields the error e, or bytes that do not fit before the buffer's end
   * (the writer then fails out of bounds; it may run out of buffer before
   * reaching the error too).
   */
  predicate FailsAs(spec: Result<seq<Byte>, Error>, at: nat, length: nat, e: Error)
  {
    match spec
    case Success(data) => at + |data| > length && e == OutOfBounds
    case Failure(e') => e == e' || e == OutOfBounds
  }

  /** The buffer holds `data` at offset, `next` is the offset after it, and nothing else changed. */
  twostate predicate Stored(bytes: array<Byte>, offset: nat, data: seq<Byte>, next: nat)
    reads bytes
  {
    next == offset + |data| <= bytes.Length
    && bytes[..] == old(bytes[..offset]) + data + old(bytes[next..])
  }

  /**
   * A writer's outcome against its specification: on success the buffer holds
   * the specified bytes at offset and nothing else changed; on failure the
   * error is the specified one, or out of bounds when the buffer is too short.
   * A failed write may have stored a prefix of its bytes by then.
   */
  twostate predicate Emitted(bytes: array<Byte>, offset: nat, spec: Result<seq<Byte>, Error>, new r: Result<nat, Error>)
    reads bytes
  {
    (r.Success? ==> spec.Success? && Stored(bytes, offset, spec.value, r.value))
    && (r.Failure? ==> FailsAs(spec, offset, bytes.Length, r.error))
  }

  /** A write of `data` at offset: it succeeds exactly when the data fits. */
  twostate predicate Wrote(bytes: array<Byte>, offset: nat, data: seq<Byte>, new r: Result<nat, Error>)
    reads bytes
  {
    Emitted(bytes, offset, Success(data), r)
  }

  lemma Associative(a: seq<Byte>, b: seq<Byte>, c: seq<Byte>)
    ensures a + (b + c) == a + b + c
  {
  }

  /** Two writes one after the other store their data concatenated. */
  lemma WroteThen(b0: seq<Byte>, b1: seq<Byte>, b2: seq<Byte>, offset: nat, d1: seq<Byte>, d2: seq<Byte>)
    requires offset + |d1| + |d2| <= |b0|
    requires b1 == b0[..offset] + d1 + b0[offset + |d1|..]
    requires b2 == b1[..offset + |d1|] + d2 + b1[offset + |d1| + |d2|..]
    ensures b2 == b0[..offset] + (d1 + d2) + b0[offset + |d1| + |d2|..]
  {
    assert b1[..offset + |d1|] == b0[..offset] + d1;
    assert b1[offset + |d1| + |d2|..] == b0[offset + |d1| + |d2|..];
  }

  /** WroteThen, with the offset between the writes and after them named as the writers return them. */
  lemma StoredThen(b0: seq<Byte>, b1: seq<Byte>, b2: seq<Byte>, offset: nat, mid: nat, next: nat, d1: seq<Byte>, d2: seq<Byte>)
    requires mid == offset + |d1| && next == mid + |d2| <= |b0|
    requires b1 == b0[..offset] + d1 + b0[mid..]
    requires b2 == b1[..mid] + d2 + b1[next..]
    ensures b2 == b0[..offset] + (d1 + d2) + b0[next..]
  {
    WroteThen(b0, b1, b2, offset, d1, d2);
  }

  /** The shared loop of writeInt and writeLong: w bytes of u, least significant first. */
  method WriteLittleEndian(bytes: array<Byte>, offset: nat, u: nat, w: nat) returns (r: Result<nat, Error>)
    modifies bytes
    ensures Wrote(bytes, offset, LEBytes(u, w), r)
  {
    if offset + w > bytes.Length {
      return Failure(OutOfBounds);
    }
    var n := u;
    for i := 0 to w
      invariant bytes[..offset] == old(bytes[..offset])
      invariant bytes[offset + w..] == old(bytes[offset + w..])
      invariant bytes[offset..offset + i] + LEBytes(n, w - i) == LEBytes(u, w)
    {
      bytes[offset + i] := n % 256;   // (byte) (n & 255)
      n := n / 256;                    // n >>>= 8
      assert bytes[offset..offset + i + 1] == bytes[offset..offset + i] + [bytes[offset + i]];
    }
    assert bytes[..] == bytes[..offset] + bytes[offset..offset + w] + bytes[offset + w..];
    r := Success(offset + w);
  }

  /** The shared loop of readInt and readLong: w bytes, byte i weighing 256^i. */
  method ReadLittleEndian(bytes: array<Byte>, offset: nat, w: nat) returns (r: Result<(nat, nat), Error>)
    ensures offset + w <= bytes.Length ==> r == Success((LE(bytes[offset..offset + w]), offset + w))
    ensures offset + w > bytes.Length ==> r == Failure(OutOfBounds)
  {
    if offset + w > bytes.Length {
      return Failure(OutOfBounds);
    }
    ghost var b := bytes[offset..offset + w];
    var n := 0;
    for i := 0 to w
      invariant n == LE(b[..i])
    {
      var value := bytes[offset + i];
      LEPrefixStep(b, i);
      n := n + value * Pow256(i);      // n ^= value << (8 * i): the bits do not overlap
    }
    assert b[..w] == b;
    r := Success((n, offset + w));
  }

  method WriteByte(bytes: array<Byte>, offset: nat, n: int8) returns (r: Result<nat, Error>)
    modifies bytes
    ensures Wrote(bytes, offset, [LowByte(n)], r)
  {
    if offset + 1 > bytes.Length {
      return Failure(OutOfBounds);
    }
    bytes[offset] := LowByte(n);
    assert bytes[..] == bytes[..offset] + [LowByte(n)] + bytes[offset + 1..];
    r := Success(offset + 1);
  }

  method WriteInt(bytes: array<Byte>, offset: nat, n: int32) returns (r: Result<nat, Error>)
    modifies bytes
    ensures Wrote(bytes, offset, IntBytes(n), r)
  {
    r := WriteLittleEndian(bytes, offset, Unsigned32(n), 4);
  }

  method WriteLong(bytes: array<Byte>, offset: nat, n: int64) returns (r: Result<nat, Error>)
    modifies bytes
    ensures Wrote(bytes, offset, LongBytes(n), r)
  {
    r := WriteLittleEndian(bytes, offset, Unsigned64(n), 8);
  }

  /** `writeDouble`: the raw bits of the double (Double.doubleToLongBits), as a long. */
  method WriteDouble(bytes: array<Byte>, offset: nat, bits: int64) returns (r: Result<nat, Error>)
    modifies bytes
    ensures Wrote(bytes, offset, LongBytes(bits), r)
  {
    r := WriteLong(bytes, offset, bits);
  }

  method WriteBoolean(bytes: array<Byte>, offset: nat, z: bool) returns (r: Result<nat, Error>)
    modifies bytes
    ensures Wrote(bytes, offset, [BooleanByte(z)], r)
  {
    if offset + 1 > bytes.Length {
      return Failure(OutOfBounds);
    }
    bytes[offset] := if z then 1 else 0;
    assert bytes[..] == bytes[..offset] + [BooleanByte(z)] + bytes[offset + 1..];
    r := Success(offset + 1);
  }

  /** `System.arraycopy` of data into the buffer at offset. */
  method CopyInto(bytes: array<Byte>, offset: nat, data: seq<Byte>)
    requires offset + |data| <= bytes.Length
    modifies bytes
    ensures bytes[..] == old(bytes[..offset]) + data + old(bytes[offset + |data|..])
  {
    forall k | 0 <= k < |data| {
      bytes[offset + k] := data[k];
    }
    assert bytes[..] == bytes[..offset] + bytes[offset..offset + |data|] + bytes[offset + |data|..];
  }

  /** `writeString`: the length as an int, then `System.arraycopy` of the bytes. */
  method WriteString(bytes: array<Byte>, offset: nat, s: JBytes) returns (r: Result<nat, Error>)
    modifies bytes
    ensures Wrote(bytes, offset, StringBytes(s), r)
  {
    if offset + 4 + |s| > bytes.Length {
      return Failure(OutOfBounds);
    }
    var p := WriteInt(bytes, offset, |s|);
    ghost var mid := bytes[..];
    CopyInto(bytes, p.value, s);
    StoredThen(old(bytes[..]), mid, bytes[..], offset, p.value, p.value + |s|, IntBytes(|s|), s);
    r := Success(p.value + |s|);
  }

  /** `writeDate`: Date.getTime(), epoch milliseconds, as a long. */
  method WriteDate(bytes: array<Byte>, offset: nat, millis: int64) returns (r: Result<nat, Error>)
    modifies bytes
    ensures Wrote(bytes, offset, LongBytes(millis), r)
  {
    r := WriteLong(bytes, offset, millis);
  }

  method ReadByte(bytes: array<Byte>, offset: nat) returns (r: Result<(int8, nat), Error>)
    ensures r == Positioned(ReadByteFrom(Suffix(bytes[..], offset)), bytes.Length)
  {
    if offset >= bytes.Length {
      return Failure(OutOfBounds);
    }
    r := Success((Signed8(bytes[offset]), offset + 1));
  }

  method ReadInt(bytes: array<Byte>, offset: nat) returns (r: Result<(int32, nat), Error>)
    ensures r == Positioned(ReadIntFrom(Suffix(bytes[..], offset)), bytes.Length)
  {
    var u := ReadLittleEndian(bytes, offset, 4);
    if u.Failure? {
      return Failure(u.error);
    }
    LEBound(bytes[offset..offset + 4]);
    assert Pow256(4) == TWO_32;
    assert bytes[offset..][..4] == bytes[offset..offset + 4];
    r := Success((Signed32(u.value.0), u.value.1));
  }

  method ReadLong(bytes: array<Byte>, offset: nat) returns (r: Result<(int64, nat), Error>)
    ensures r == Positioned(ReadLongFrom(Suffix(bytes[..], offset)), bytes.Length)
  {
    var u := ReadLittleEndian(bytes, offset, 8);
    if u.Failure? {
      return Failure(u.error);
    }
    LEBound(bytes[offset..offset + 8]);
    assert Pow256(8) == TWO_64;
    assert bytes[offset..][..8] == bytes[offset..offset + 8];
    r := Success((Signed64(u.value.0), u.value.1));
  }

  /** `readDouble`: the raw bits (Double.longBitsToDouble is not modelled). */
  method ReadDouble(bytes: array<Byte>, offset: nat) returns (r: Result<(int64, nat), Error>)
    ensures r == Positioned(ReadLongFrom(Suffix(bytes[..], offset)), bytes.Length)
  {
    r := ReadLong(bytes, offset);
  }

  method ReadBoolean(bytes: array<Byte>, offset: nat) returns (r: Result<(bool, nat), Error>)
    ensures r == Positioned(ReadBooleanFrom(Suffix(bytes[..], offset)), bytes.Length)
  {
    var b := ReadByte(bytes, offset);
    if b.Failure? {
      return Failure(b.error);
    }
    r := Success((b.value.0 != 0, b.value.1));
  }

  method ReadString(bytes: array<Byte>, offset: nat) returns (r: Result<(Option<JBytes>, nat), Error>)
    ensures r == Positioned(ReadStringFrom(Suffix(bytes[..], offset)), bytes.Length)
  {
    var n := ReadInt(bytes, offset);
    if n.Failure? {
      return Failure(n.error);
    }
    var (length, p) := n.value;
    assert Suffix(bytes[..], offset)[4..] == bytes[p..];
    if length == INT_MIN {
      return Success((None, p));
    }
    if length < 0 {
      return Failure(NegativeLength(length));
    }
    if p + length > bytes.Length {
      return Failure(OutOfBounds);
    }
    assert bytes[p..][..length] == bytes[p..p + length];
    r := Success((Some(bytes[p..p + length]), p + length));
  }

  method ReadDate(bytes: array<Byte>, offset: nat) returns (r: Result<(Option<int64>, nat), Error>)
    ensures r == Positioned(ReadDateFrom(Suffix(bytes[..], offset)), bytes.Length)
  {
    var n := ReadLong(bytes, offset);
    if n.Failure? {
      return Failure(n.error);
    }
    if n.value.0 == LONG_MIN {
      return Success((None, n.value.1));
    }
    r := Success((Some(n.value.0), n.value.1));
  }
}

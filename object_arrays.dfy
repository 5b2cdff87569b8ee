/**
 * The object arrays of the binary row format: writeObjectArray and
 * readObjectArray of ArrayMap, as functions of the bytes.
 *
 * An array is its length as an int, then per element a presence byte (0 for
 * null, 1 otherwise) followed, for a non-null element, by its payload. The
 * payload's shape is fixed by a type code per position, kept in an `int[]`
 * shared with the caller: -1 means "not yet known" and is replaced by the class
 * of the first non-null element written at that position.
 */
module ObjectArrays {
  import opened Wrappers
  import opened JavaInts
  import opened ByteArrayUtil

  /** Type codes of the format. */
  const UNSET: int := -1
  const BYTE_TYPE: int := 0
  const INT_TYPE: int := 2
  const LONG_TYPE: int := 4
  const DOUBLE_TYPE: int := 6
  const BOOLEAN_TYPE: int := 8
  const STRING_TYPE: int := 20
  const DATE_TYPE: int := 22

  predicate IsType(t: int)
  {
    t == BYTE_TYPE || t == INT_TYPE || t == LONG_TYPE || t == DOUBLE_TYPE
    || t == BOOLEAN_TYPE || t == STRING_TYPE || t == DATE_TYPE
  }

  /**
   * A non-null value stored in a row. A double is its raw IEEE bits, a String
   * its UTF-8 bytes, a Date its epoch milliseconds; `Other` is any other class.
   */
  datatype Value =
    | ByteValue(b: int8)
    | IntValue(i: int32)
    | LongValue(l: int64)
    | DoubleValue(bits: int64)
    | BooleanValue(z: bool)
    | StringValue(s: JBytes)
    | DateValue(millis: int64)
    | Other

  /** An element of an Object[]: None is null. */
  type Cell = Option<Value>

  /** A Java array: fewer than 2^31 elements. */
  type JArray<T> = s: seq<T> | |s| < TWO_31 witness []

  /** The type code of a value's class (the instanceof chain); None for a class the format does not know. */
  function TypeOf(v: Value): (t: Option<int>)
    ensures t.Some? <==> !v.Other?
    ensures t.Some? ==> IsType(t.value)
  {
    match v
    case ByteValue(_) => Some(BYTE_TYPE)
    case IntValue(_) => Some(INT_TYPE)
    case LongValue(_) => Some(LONG_TYPE)
    case DoubleValue(_) => Some(DOUBLE_TYPE)
    case BooleanValue(_) => Some(BOOLEAN_TYPE)
    case StringValue(_) => Some(STRING_TYPE)
    case DateValue(_) => Some(DATE_TYPE)
    case Other => None
  }

  /** The bytes the matching ByteArrayUtil writer stores for a value. */
  function PayloadBytes(v: Value): seq<Byte>
  {
    match v
    case ByteValue(b) => [LowByte(b)]
    case IntValue(i) => IntBytes(i)
    case LongValue(l) => LongBytes(l)
    case DoubleValue(bits) => LongBytes(bits)
    case BooleanValue(z) => [BooleanByte(z)]
    case StringValue(s) => StringBytes(s)
    case DateValue(millis) => LongBytes(millis)
    case Other => []
  }

  function CellBytes(c: Cell): seq<Byte>
  {
    match c
    case None => [0]
    case Some(v) => [1] + PayloadBytes(v)
  }

  function CellsBytes(cs: seq<Cell>): seq<Byte>
  {
    if cs == [] then [] else CellBytes(cs[0]) + CellsBytes(cs[1..])
  }

  // ---------------------------------------------------------------------------
  // Writing

  /** An element the type code t admits: null, or a known class agreeing with t unless t is unset. */
  predicate Admits(t: int, c: Cell)
  {
    c.None? || (TypeOf(c.value).Some? && (t == UNSET || t == TypeOf(c.value).value))
  }

  /** What writing c does to its position's type code: null leaves it, a value fixes it to its class. */
  predicate Settles(t: int, c: Cell, t': int)
  {
    (c.None? ==> t' == t)
    && (c.Some? ==> TypeOf(c.value) == Some(t') && (t == UNSET || t' == t))
  }

  /** The type code used for a non-null element: the cached one, else the value's class. */
  function ResolveType(t: int, v: Value): Result<int, Error>
  {
    if t != UNSET then Success(t)
    else match TypeOf(v)
      case Some(g) => Success(g)
      case None => Failure(UnsupportedClass)
  }

  /** The payload written under type code t: the cast to t's class fails on any other class. */
  function Payload(t: int, v: Value): (r: Result<seq<Byte>, Error>)
    ensures r.Success? <==> TypeOf(v) == Some(t)
    ensures r.Success? ==> r.value == PayloadBytes(v)
  {
    if !IsType(t) then Failure(UnexpectedType(t))
    else if TypeOf(v) != Some(t) then Failure(ClassCast)
    else Success(PayloadBytes(v))
  }

  /** One element: the position's new type code and the bytes written. */
  function Item(t: int, c: Cell): (r: Result<(int, seq<Byte>), Error>)
    ensures r.Success? <==> Admits(t, c)
    ensures r.Success? ==> r.value.1 == CellBytes(c) && Settles(t, c, r.value.0)
  {
    match c
    case None => Success((t, [0]))
    case Some(v) =>
      var t' :- ResolveType(t, v);
      var p :- Payload(t', v);
      Success((t', [1] + p))
  }

  /** The elements in order: their bytes and the updated type codes; the first failing element decides the error. */
  function Items(ts: seq<int>, cs: seq<Cell>): (r: Result<(seq<Byte>, seq<int>), Error>)
    requires |ts| == |cs|
    ensures r.Success? <==> forall j :: 0 <= j < |cs| ==> Admits(ts[j], cs[j])
    ensures r.Success? ==> r.value.0 == CellsBytes(cs) && |r.value.1| == |ts|
    ensures r.Success? ==> forall j :: 0 <= j < |cs| ==> Settles(ts[j], cs[j], r.value.1[j])
  {
    if cs == [] then Success(([], []))
    else
      var first :- Item(ts[0], cs[0]);
      var rest :- Items(ts[1..], cs[1..]);
      assert forall j :: 1 <= j < |cs| ==> ts[j] == ts[1..][j - 1] && cs[j] == cs[1..][j - 1];
      Success((first.1 + rest.0, [first.0] + rest.1))
  }

  /** `writeObjectArray`: the length, then the elements. */
  function ObjectArrayBytes(ts: seq<int>, cs: JArray<Cell>): (r: Result<(seq<Byte>, seq<int>), Error>)
    requires |ts| == |cs|
    ensures r.Success? <==> forall j :: 0 <= j < |cs| ==> Admits(ts[j], cs[j])
    ensures r.Success? ==> r.value.0 == IntBytes(|cs|) + CellsBytes(cs) && |r.value.1| == |ts|
    ensures r.Success? ==> forall j :: 0 <= j < |cs| ==> Settles(ts[j], cs[j], r.value.1[j])
  {
    var items :- Items(ts, cs);
    Success((IntBytes(|cs|) + items.0, items.1))
  }

  /** A fresh type-code array: `Arrays.fill(types, -1)`. */
  function Unset(n: nat): (ts: seq<int>)
    ensures |ts| == n && forall j :: 0 <= j < n ==> ts[j] == UNSET
  {
    seq(n, _ => UNSET)
  }

  // ---------------------------------------------------------------------------
  // Reading

  /** The type code for position i: 20 (String) when no type array is given, else types[i]. */
  function TypeAt(types: Option<seq<int>>, i: nat): Result<int, Error>
  {
    match types
    case None => Success(STRING_TYPE)
    case Some(ts) => if i < |ts| then Success(ts[i]) else Failure(OutOfBounds)
  }

  /** The payload of a non-null element under type code t; a null String or Date reads back as null. */
  function ReadValueFrom(s: seq<Byte>, t: int): (r: Result<(Cell, seq<Byte>), Error>)
  {
    if t == BYTE_TYPE then
      var r :- ReadByteFrom(s); Success((Some(ByteValue(r.0)), r.1))
    else if t == INT_TYPE then
      var r :- ReadIntFrom(s); Success((Some(IntValue(r.0)), r.1))
    else if t == LONG_TYPE then
      var r :- ReadLongFrom(s); Success((Some(LongValue(r.0)), r.1))
    else if t == DOUBLE_TYPE then
      var r :- ReadLongFrom(s); Success((Some(DoubleValue(r.0)), r.1))
    else if t == BOOLEAN_TYPE then
      var r :- ReadBooleanFrom(s); Success((Some(BooleanValue(r.0)), r.1))
    else if t == STRING_TYPE then
      var r :- ReadStringFrom(s);
      Success((if r.0.None? then None else Some(StringValue(r.0.value)), r.1))
    else if t == DATE_TYPE then
      var r :- ReadDateFrom(s);
      Success((if r.0.None? then None else Some(DateValue(r.0.value)), r.1))
    else Failure(UnexpectedType(t))
  }

  /** One element at position i: the presence byte, then the payload if it is 1. */
  function ReadItemFrom(s: seq<Byte>, types: Option<seq<int>>, i: nat): (r: Result<(Cell, seq<Byte>), Error>)
  {
    var p :- ReadByteFrom(s);
    if p.0 == 0 then Success((None, p.1))
    else if p.0 != 1 then Failure(BadPresence(p.0))
    else
      var t :- TypeAt(types, i);
      ReadValueFrom(p.1, t)
  }

  /** Elements i to n - 1. */
  function ReadItemsFrom(s: seq<Byte>, types: Option<seq<int>>, i: nat, n: nat): (r: Result<(seq<Cell>, seq<Byte>), Error>)
    requires i <= n
    decreases n - i
    ensures r.Success? ==> |r.value.0| == n - i
  {
    if i == n then Success(([], s))
    else
      var c :- ReadItemFrom(s, types, i);
      var rest :- ReadItemsFrom(c.1, types, i + 1, n);
      Success(([c.0] + rest.0, rest.1))
  }

  /** `readObjectArray`: a negative length fails allocating the array. */
  function ReadObjectArrayFrom(s: seq<Byte>, types: Option<seq<int>>): (r: Result<(JArray<Cell>, seq<Byte>), Error>)
  {
    var n :- ReadIntFrom(s);
    if n.0 < 0 then Failure(NegativeLength(n.0))
    else
      var items :- ReadItemsFrom(n.1, types, 0, n.0);
      Success((items.0, items.1))
  }

  // ---------------------------------------------------------------------------
  // Round trip

  /** Element c at position j reads back as itself under the given types. */
  predicate Recovers(types: Option<seq<int>>, j: nat, c: Cell)
  {
    c.None? || (TypeOf(c.value).Some? && TypeAt(types, j) == Success(TypeOf(c.value).value) && c.value != DateValue(LONG_MIN))
  }

  lemma ReadValueWritten(v: Value, rest: seq<Byte>)
    requires !v.Other? && v != DateValue(LONG_MIN)
    ensures ReadValueFrom(PayloadBytes(v) + rest, TypeOf(v).value) == Success((Some(v), rest))
  {
    match v
    case ByteValue(b) => ReadByteWritten(b, rest);
    case IntValue(i) => ReadIntWritten(i, rest);
    case LongValue(l) => ReadLongWritten(l, rest);
    case DoubleValue(bits) => ReadLongWritten(bits, rest);
    case BooleanValue(z) => ReadBooleanWritten(z, rest);
    case StringValue(str) => ReadStringWritten(str, rest);
    case DateValue(millis) => ReadDateWritten(millis, rest);
  }

  lemma ReadPresentFrom(s: seq<Byte>, types: Option<seq<int>>, i: nat, t: int)
    requires TypeAt(types, i) == Success(t)
    ensures ReadItemFrom([1] + s, types, i) == ReadValueFrom(s, t)
  {
    ReadByteWritten(1, s);
  }

  lemma ReadPresentWritten(types: Option<seq<int>>, i: nat, v: Value, rest: seq<Byte>)
    requires Recovers(types, i, Some(v))
    ensures ReadItemFrom(CellBytes(Some(v)) + rest, types, i) == Success((Some(v), rest))
  {
    assert CellBytes(Some(v)) + rest == [1] + (PayloadBytes(v) + rest);
    ReadPresentFrom(PayloadBytes(v) + rest, types, i, TypeOf(v).value);
    ReadValueWritten(v, rest);
  }

  lemma ReadItemWritten(types: Option<seq<int>>, i: nat, c: Cell, rest: seq<Byte>)
    requires Recovers(types, i, c)
    ensures ReadItemFrom(CellBytes(c) + rest, types, i) == Success((c, rest))
  {
    if c.Some? {
      ReadPresentWritten(types, i, c.value, rest);
    } else {
      ReadByteWritten(0, rest);
    }
  }

  /** One unfolding of ReadItemsFrom. */
  lemma ReadItemsStep(s: seq<Byte>, types: Option<seq<int>>, i: nat, n: nat, c: Cell, after: seq<Byte>, cs: seq<Cell>, rest: seq<Byte>)
    requires i < n
    requires ReadItemFrom(s, types, i) == Success((c, after))
    requires ReadItemsFrom(after, types, i + 1, n) == Success((cs, rest))
    ensures ReadItemsFrom(s, types, i, n) == Success(([c] + cs, rest))
  {
  }

  /** The elements from position i on, written one after another, read back as themselves. */
  lemma {:induction false} ReadItemsWritten(types: Option<seq<int>>, cs: seq<Cell>, i: nat, rest: seq<Byte>)
    requires i <= |cs|
    requires forall j :: i <= j < |cs| ==> Recovers(types, j, cs[j])
    ensures ReadItemsFrom(CellsBytes(cs[i..]) + rest, types, i, |cs|) == Success((cs[i..], rest))
    decreases |cs| - i
  {
    if i == |cs| {
      assert cs[i..] == [] && CellsBytes(cs[i..]) + rest == rest;
    } else {
      var tail := CellsBytes(cs[i + 1..]) + rest;
      CellsBytesAt(cs, i, rest);
      ReadItemsWritten(types, cs, i + 1, rest);
      ReadItemWritten(types, i, cs[i], tail);
      ReadItemsStep(CellBytes(cs[i]) + tail, types, i, |cs|, cs[i], tail, cs[i + 1..], rest);
    }
  }

  /** The bytes of the elements from i on: element i's, then those of the elements after it. */
  lemma CellsBytesAt(cs: seq<Cell>, i: nat, rest: seq<Byte>)
    requires i < |cs|
    ensures CellsBytes(cs[i..]) + rest == CellBytes(cs[i]) + (CellsBytes(cs[i + 1..]) + rest)
    ensures [cs[i]] + cs[i + 1..] == cs[i..]
  {
    assert cs[i..][1..] == cs[i + 1..];
  }

  /** readObjectArray in its two parts: the length, then that many elements. */
  lemma ReadObjectArrayParts(s: seq<Byte>, types: Option<seq<int>>, n: nat, body: seq<Byte>, items: seq<Cell>, rest: seq<Byte>)
    requires ReadIntFrom(s) == Success((n, body))
    requires ReadItemsFrom(body, types, 0, n) == Success((items, rest))
    ensures ReadObjectArrayFrom(s, types) == Success((items, rest))
  {
  }

  /** What `writeObjectArray` stores, `readObjectArray` returns, when every element is readable under the types. */
  lemma ReadObjectArrayWritten(types: Option<seq<int>>, cs: JArray<Cell>, rest: seq<Byte>)
    requires forall j :: 0 <= j < |cs| ==> Recovers(types, j, cs[j])
    ensures ReadObjectArrayFrom(IntBytes(|cs|) + CellsBytes(cs) + rest, types) == Success((cs, rest))
  {
    var body := CellsBytes(cs) + rest;
    Associative(IntBytes(|cs|), CellsBytes(cs), rest);
    ReadIntWritten(|cs|, body);
    ReadItemsWritten(types, cs, 0, rest);
    assert cs[0..] == cs;
    ReadObjectArrayParts(IntBytes(|cs|) + body, types, |cs|, body, cs, rest);
  }
}

/**
 * The binary form of a List<Row> (ArrayMap.toBinaryArray / fromBinaryArray),
 * as functions of the bytes.
 *
 *   "ROWS" as a length-prefixed string, the row count as an int; for a
 *   non-empty list, the tag 'A', the zero row's key array (an object array of
 *   Strings), one type byte per column, then each row's value array.
 *
 * A column's type is fixed by its first non-null value: the type bytes are
 * written last, into a gap reserved before the rows, once every row has been seen.
 */
module RowsFormat {
  import opened Wrappers
  import opened JavaInts
  import opened ByteArrayUtil
  import opened ObjectArrays

  /** A column name: a String as its UTF-8 bytes, None for null. */
  type Key = Option<JBytes>

  /**
   * A Row as the format sees it. An ArrayMap delegate is its whole key and
   * value arrays (all `capacity` slots, whatever the map's size); a HashMap
   * delegate goes through Java serialization, which is not modelled.
   */
  datatype Row = ArrayRow(keys: JArray<Key>, values: JArray<Cell>) | HashRow

  /** The header string and the two body tags, 'A' and 'H'. */
  const ROWS: JBytes := [82, 79, 87, 83]
  const ARRAY_ROWS: int8 := 65
  const HASH_ROWS: int8 := 72

  function KeyCell(k: Key): Cell
  {
    match k
    case None => None
    case Some(s) => Some(StringValue(s))
  }

  function KeyCells(ks: JArray<Key>): (cs: JArray<Cell>)
    ensures |cs| == |ks| && forall j :: 0 <= j < |ks| ==> cs[j] == KeyCell(ks[j])
  {
    seq(|ks|, j requires 0 <= j < |ks| => KeyCell(ks[j]))
  }

  /** `(String) objectKeys[i]`: the elements of a String-typed object array. */
  function KeyOf(c: Cell): Key
  {
    match c
    case Some(StringValue(s)) => Some(s)
    case _ => None
  }

  function KeysOf(cs: JArray<Cell>): (ks: JArray<Key>)
    ensures |ks| == |cs| && forall j :: 0 <= j < |cs| ==> ks[j] == KeyOf(cs[j])
  {
    seq(|cs|, j requires 0 <= j < |cs| => KeyOf(cs[j]))
  }

  /** `(byte) valueType` for each column. */
  function TypeBytes(ts: seq<int>): (b: seq<Byte>)
    ensures |b| == |ts|
  {
    if ts == [] then [] else [LowByte(ts[0])] + TypeBytes(ts[1..])
  }

  // ---------------------------------------------------------------------------
  // Encoding

  /**
   * The rows' value arrays in order, each checked against the column count
   * and written with the shared column types; the types as they stand afterwards.
   */
  function RowsBytes(ts: seq<int>, rows: seq<Row>): (r: Result<(seq<Byte>, seq<int>), Error>)
    requires |ts| < TWO_31
    ensures r.Success? ==> |r.value.1| == |ts|
    decreases |rows|
  {
    if rows == [] then Success(([], ts))
    else match rows[0]
      case HashRow => Failure(ClassCast)
      case ArrayRow(_, values) =>
        if |values| != |ts| then Failure(LengthMismatch)
        else
          var first :- ObjectArrayBytes(ts, values);
          var rest :- RowsBytes(first.1, rows[1..]);
          Success((first.0 + rest.0, rest.1))
  }

  /**
   * The 'A' body (`convertArrayMapRowsToBinaryArray`): the zero row's keys,
   * the column types as the rows leave them, then the rows.
   */
  function ArrayRowsBytes(rows: seq<Row>): Result<seq<Byte>, Error>
    requires rows != [] && rows[0].ArrayRow?
  {
    var keys := rows[0].keys;
    var k :- ObjectArrayBytes(Unset(|keys|), KeyCells(keys));
    var v :- RowsBytes(Unset(|keys|), rows);
    Success(k.0 + TypeBytes(v.1) + v.0)
  }

  /** `toBinaryArray`'s output for a list of rows. */
  function EncodeRows(rows: seq<Row>): Result<seq<Byte>, Error>
    requires |rows| < TWO_31
  {
    var header := StringBytes(ROWS) + IntBytes(|rows|);
    if rows == [] then Success(header)
    else match rows[0]
      case HashRow => Failure(SerializedForm)
      case ArrayRow(_, _) =>
        var body :- ArrayRowsBytes(rows);
        Success(header + [LowByte(ARRAY_ROWS)] + body)
  }

  // ---------------------------------------------------------------------------
  // Decoding

  /** k type bytes, each read as a signed byte. */
  function ReadTypesFrom(s: seq<Byte>, k: nat): (r: Result<(seq<int>, seq<Byte>), Error>)
    ensures r.Success? ==> |r.value.0| == k
  {
    if k == 0 then Success(([], s))
    else
      var b :- ReadByteFrom(s);
      var rest :- ReadTypesFrom(b.1, k - 1);
      Success(([b.0 as int] + rest.0, rest.1))
  }

  function Zeros(k: nat): (z: seq<int>)
    ensures |z| == k && forall j :: 0 <= j < k ==> z[j] == 0
  {
    seq(k, _ => 0)
  }

  /** count rows sharing the keys; a null key fails when the row's map is built (it hashes every key). */
  function RowsFrom(s: seq<Byte>, keys: JArray<Key>, types: seq<int>, count: nat): Result<seq<Row>, Error>
    decreases count
  {
    if count == 0 then Success([])
    else
      var v :- ReadObjectArrayFrom(s, Some(types));
      if None in keys then Failure(NullKey)
      else
        var rest :- RowsFrom(v.1, keys, types, count - 1);
        Success([ArrayRow(keys, v.0)] + rest)
  }

  /**
   * The 'A' body: keys, type bytes, rows. The type array has one slot per row
   * when `typesByRowCount` (the code as written) and one per column otherwise.
   */
  function ArrayRowsFrom(s: seq<Byte>, size: nat, typesByRowCount: bool): Result<seq<Row>, Error>
  {
    var k :- ReadObjectArrayFrom(s, None);
    TypedRowsFrom(k.1, KeysOf(k.0), size, typesByRowCount)
  }

  /** What follows the keys: their type bytes, then the rows. */
  function TypedRowsFrom(s: seq<Byte>, keys: JArray<Key>, size: nat, typesByRowCount: bool): Result<seq<Row>, Error>
  {
    var t :- TypesRead(s, |keys|, TypeSlots(size, |keys|, typesByRowCount));
    RowsFrom(t.1, keys, t.0, size)
  }

  /**
   * The type bytes of k columns stored one by one into a type array of
   * `slots` zeros: the store past its end fails.
   */
  function TypesRead(s: seq<Byte>, k: nat, slots: nat): Result<(seq<int>, seq<Byte>), Error>
  {
    if k > slots then Failure(OutOfBounds)
    else
      var t :- ReadTypesFrom(s, k);
      Success((t.0 + Zeros(slots - k), t.1))
  }

  /** The length of the type array the decoder keeps. */
  function TypeSlots(size: nat, columns: nat, typesByRowCount: bool): nat
  {
    if typesByRowCount then size else columns
  }

  function DecodeRowsWith(s: seq<Byte>, typesByRowCount: bool): Result<seq<Row>, Error>
  {
    var h :- ReadStringFrom(s);
    if h.0 != Some(ROWS) then Failure(BadHeader)
    else
      var c :- ReadIntFrom(h.1);
      if c.0 == 0 then Success([])
      else
        var d :- ReadByteFrom(c.1);
        if d.0 == HASH_ROWS then Failure(SerializedForm)
        else if d.0 != ARRAY_ROWS then Failure(BadFormat(d.0))
        else if c.0 < 0 then Failure(NegativeLength(c.0))
        else ArrayRowsFrom(d.1, c.0, typesByRowCount)
  }

  /** `fromBinaryArray` as written: the column types are kept in an array sized by the row count. */
  function DecodeRowsAsWritten(s: seq<Byte>): Result<seq<Row>, Error>
  {
    DecodeRowsWith(s, true)
  }

  /** `fromBinaryArray` with the column types kept in an array sized by the column count. */
  function DecodeRows(s: seq<Byte>): Result<seq<Row>, Error>
  {
    DecodeRowsWith(s, false)
  }

  // ---------------------------------------------------------------------------
  // Which lists encode

  /**
   * Rows the column types ts accept: all ArrayMap rows of |ts| values, each
   * value admitted by its column's type, and any two non-null values of a
   * column of the same class.
   */
  predicate Fits(ts: seq<int>, rows: seq<Row>)
  {
    (forall i :: 0 <= i < |rows| ==> rows[i].ArrayRow? && |rows[i].values| == |ts|)
    && (forall i, j :: 0 <= i < |rows| && 0 <= j < |ts| ==> Admits(ts[j], rows[i].values[j]))
    && (forall i, i', j ::
          (0 <= i < |rows| && 0 <= i' < |rows| && 0 <= j < |ts|
           && rows[i].values[j].Some? && rows[i'].values[j].Some?) ==>
          TypeOf(rows[i].values[j].value) == TypeOf(rows[i'].values[j].value))
  }

  /**
   * The lists toBinaryArray accepts: every row an ArrayMap with as many values
   * as the zero row has keys, every value of a known class, one class per column.
   */
  predicate Encodable(rows: seq<Row>)
  {
    rows == [] || (rows[0].ArrayRow? && Fits(Unset(|rows[0].keys|), rows))
  }

  /** The value arrays' bytes, one row after another. */
  function RowsImage(rows: seq<Row>): seq<Byte>
  {
    if rows == [] then []
    else if rows[0].HashRow? then RowsImage(rows[1..])
    else IntBytes(|rows[0].values|) + CellsBytes(rows[0].values) + RowsImage(rows[1..])
  }

  /** Every non-null value of column j has the class ts[j]. */
  predicate Typed(ts: seq<int>, rows: seq<Row>)
  {
    forall i, j ::
      (0 <= i < |rows| && rows[i].ArrayRow? && 0 <= j < |rows[i].values| && j < |ts|
       && rows[i].values[j].Some?) ==> TypeOf(rows[i].values[j].value) == Some(ts[j])
  }

  /** Success of the rows' encoding, and what it produces: the rows' bytes, and final column types every value agrees with. */
  lemma {:induction false} RowsBytesShape(ts: seq<int>, rows: seq<Row>)
    requires |ts| < TWO_31 && RowsBytes(ts, rows).Success?
    ensures Fits(ts, rows)
    ensures RowsBytes(ts, rows).value.0 == RowsImage(rows)
    ensures Typed(RowsBytes(ts, rows).value.1, rows)
    ensures forall j :: 0 <= j < |ts| ==> ts[j] == UNSET || RowsBytes(ts, rows).value.1[j] == ts[j]
    ensures forall j :: 0 <= j < |ts| ==> RowsBytes(ts, rows).value.1[j] == ts[j] || IsType(RowsBytes(ts, rows).value.1[j])
    decreases |rows|
  {
    if rows != [] {
      var values := rows[0].values;
      var first := ObjectArrayBytes(ts, values).value;
      RowsBytesShape(first.1, rows[1..]);
      var fin := RowsBytes(first.1, rows[1..]).value.1;
      assert RowsBytes(ts, rows).value == (first.0 + RowsBytes(first.1, rows[1..]).value.0, fin);
      FitsCons(ts, first.1, rows);
      forall i, j | 0 <= i < |rows| && rows[i].ArrayRow? && 0 <= j < |rows[i].values| && j < |fin| && rows[i].values[j].Some?
        ensures TypeOf(rows[i].values[j].value) == Some(fin[j])
      {
        if i > 0 {
          assert rows[i] == rows[1..][i - 1];
        }
      }
    }
  }

  /** Fits is built row by row: the zero row under ts, the rest under the types the zero row leaves. */
  lemma FitsCons(ts: seq<int>, ts': seq<int>, rows: seq<Row>)
    requires rows != [] && rows[0].ArrayRow? && |rows[0].values| == |ts| == |ts'|
    requires forall j :: 0 <= j < |ts| ==> Admits(ts[j], rows[0].values[j]) && Settles(ts[j], rows[0].values[j], ts'[j])
    ensures Fits(ts', rows[1..]) ==> Fits(ts, rows)
    ensures Fits(ts, rows) ==> Fits(ts', rows[1..])
  {
    if Fits(ts', rows[1..]) {
      forall i | 0 <= i < |rows|
        ensures rows[i].ArrayRow? && |rows[i].values| == |ts|
      {
        if i > 0 { assert rows[i] == rows[1..][i - 1]; }
      }
      forall i, j | 0 <= i < |rows| && 0 <= j < |ts|
        ensures Admits(ts[j], rows[i].values[j])
      {
        if i > 0 { assert rows[i] == rows[1..][i - 1]; }
      }
      forall i, i', j | 0 <= i < |rows| && 0 <= i' < |rows| && 0 <= j < |ts|
          && rows[i].values[j].Some? && rows[i'].values[j].Some?
        ensures TypeOf(rows[i].values[j].value) == TypeOf(rows[i'].values[j].value)
      {
        if i > 0 { assert rows[i] == rows[1..][i - 1]; }
        if i' > 0 { assert rows[i'] == rows[1..][i' - 1]; }
      }
    }
    if Fits(ts, rows) {
      forall i, j | 0 <= i < |rows[1..]| && 0 <= j < |ts'|
        ensures Admits(ts'[j], rows[1..][i].values[j])
      {
        assert rows[1..][i] == rows[i + 1];
      }
      forall i, i', j | 0 <= i < |rows[1..]| && 0 <= i' < |rows[1..]| && 0 <= j < |ts'|
          && rows[1..][i].values[j].Some? && rows[1..][i'].values[j].Some?
        ensures TypeOf(rows[1..][i].values[j].value) == TypeOf(rows[1..][i'].values[j].value)
      {
        assert rows[1..][i] == rows[i + 1] && rows[1..][i'] == rows[i' + 1];
      }
    }
  }

  /** Conversely, rows that fit encode. */
  lemma {:induction false} RowsBytesFits(ts: seq<int>, rows: seq<Row>)
    requires |ts| < TWO_31 && Fits(ts, rows)
    ensures RowsBytes(ts, rows).Success?
    decreases |rows|
  {
    if rows != [] {
      var values := rows[0].values;
      var first := ObjectArrayBytes(ts, values).value;
      FitsCons(ts, first.1, rows);
      RowsBytesFits(first.1, rows[1..]);
    }
  }

  /** toBinaryArray succeeds exactly on the encodable lists. */
  lemma EncodeRowsSucceeds(rows: seq<Row>)
    requires |rows| < TWO_31
    ensures EncodeRows(rows).Success? <==> Encodable(rows)
  {
    if rows != [] && rows[0].ArrayRow? {
      var n := |rows[0].keys|;
      assert ObjectArrayBytes(Unset(n), KeyCells(rows[0].keys)).Success?;
      if RowsBytes(Unset(n), rows).Success? {
        RowsBytesShape(Unset(n), rows);
      }
      if Fits(Unset(n), rows) {
        RowsBytesFits(Unset(n), rows);
      }
    }
  }

  /** Two non-null values of different classes in one column make the encoding fail. */
  lemma MixedColumnRejected(rows: seq<Row>, i: nat, i': nat, j: nat)
    requires |rows| < TWO_31 && i < |rows| && i' < |rows|
    requires rows[i].ArrayRow? && rows[i'].ArrayRow? && j < |rows[i].values| && j < |rows[i'].values|
    requires rows[i].values[j].Some? && rows[i'].values[j].Some?
    requires TypeOf(rows[i].values[j].value) != TypeOf(rows[i'].values[j].value)
    ensures EncodeRows(rows).Failure?
  {
    EncodeRowsSucceeds(rows);
  }

  // ---------------------------------------------------------------------------
  // Round trip

  /** What reading back an encodable list yields: each row's values under the zero row's keys. */
  function Decoded(rows: seq<Row>): (d: seq<Row>)
    requires forall i :: 0 <= i < |rows| ==> rows[i].ArrayRow?
    ensures |d| == |rows|
  {
    if rows == [] then [] else Rekeyed(rows[0].keys, rows)
  }

  function Rekeyed(keys: JArray<Key>, rows: seq<Row>): (d: seq<Row>)
    requires forall i :: 0 <= i < |rows| ==> rows[i].ArrayRow?
    ensures |d| == |rows|
  {
    seq(|rows|, i requires 0 <= i < |rows| => ArrayRow(keys, rows[i].values))
  }

  /** No value is a Date at Long.MIN_VALUE, the instant the format reserves for null. */
  predicate NoMinDate(rows: seq<Row>)
  {
    forall i, j :: 0 <= i < |rows| && rows[i].ArrayRow? && 0 <= j < |rows[i].values| ==>
      rows[i].values[j] != Some(DateValue(LONG_MIN))
  }

  lemma {:induction false} ReadTypesWritten(ts: seq<int>, rest: seq<Byte>)
    requires forall j :: 0 <= j < |ts| ==> -TWO_7 <= ts[j] < TWO_7
    ensures ReadTypesFrom(TypeBytes(ts) + rest, |ts|) == Success((ts, rest))
  {
    if ts != [] {
      var after := TypeBytes(ts[1..]) + rest;
      ReadTypesWritten(ts[1..], rest);
      assert TypeBytes(ts) + rest == [LowByte(ts[0])] + after;
      ReadByteWritten(ts[0], after);
      assert ReadTypesFrom(after, |ts| - 1) == Success((ts[1..], rest));
      assert [ts[0]] + ts[1..] == ts;
    } else {
      assert TypeBytes(ts) + rest == rest;
    }
  }

  /** All rows are ArrayMap rows whose every value reads back under the types. */
  predicate AllRecover(rows: seq<Row>, types: seq<int>)
  {
    forall i :: 0 <= i < |rows| ==>
      rows[i].ArrayRow? && forall j :: 0 <= j < |rows[i].values| ==> Recovers(Some(types), j, rows[i].values[j])
  }

  lemma AllRecoverTail(rows: seq<Row>, types: seq<int>)
    requires rows != [] && AllRecover(rows, types)
    ensures AllRecover(rows[1..], types)
  {
    forall i | 0 <= i < |rows[1..]| ensures rows[1..][i] == rows[i + 1] { }
  }

  lemma RowsImageCons(rows: seq<Row>, tail: seq<Byte>)
    requires rows != [] && rows[0].ArrayRow?
    ensures RowsImage(rows) + tail
      == IntBytes(|rows[0].values|) + CellsBytes(rows[0].values) + (RowsImage(rows[1..]) + tail)
  {
  }

  lemma RekeyedCons(keys: JArray<Key>, rows: seq<Row>)
    requires rows != [] && forall i :: 0 <= i < |rows| ==> rows[i].ArrayRow?
    ensures Rekeyed(keys, rows) == [ArrayRow(keys, rows[0].values)] + Rekeyed(keys, rows[1..])
  {
  }

  /** The zero row reads back ahead of the rest. */
  lemma RowsFromCons(rows: seq<Row>, keys: JArray<Key>, types: seq<int>, tail: seq<Byte>)
    requires rows != [] && AllRecover(rows, types) && None !in keys
    requires RowsFrom(RowsImage(rows[1..]) + tail, keys, types, |rows| - 1) == Success(Rekeyed(keys, rows[1..]))
    ensures RowsFrom(RowsImage(rows) + tail, keys, types, |rows|) == Success(Rekeyed(keys, rows))
  {
    var values := rows[0].values;
    RowsImageCons(rows, tail);
    ReadObjectArrayWritten(Some(types), values, RowsImage(rows[1..]) + tail);
    RekeyedCons(keys, rows);
  }

  /** The value arrays read back in order, each paired with the given keys. */
  lemma {:induction false} RowsFromWritten(rows: seq<Row>, keys: JArray<Key>, types: seq<int>, tail: seq<Byte>)
    requires AllRecover(rows, types) && None !in keys
    ensures RowsFrom(RowsImage(rows) + tail, keys, types, |rows|) == Success(Rekeyed(keys, rows))
    decreases |rows|
  {
    if rows != [] {
      AllRecoverTail(rows, types);
      RowsFromWritten(rows[1..], keys, types, tail);
      RowsFromCons(rows, keys, types, tail);
    } else {
      assert RowsImage(rows) + tail == tail;
    }
  }

  /** Keys written as String cells read back as the same keys, nulls included. */
  lemma KeysOfKeyCells(keys: JArray<Key>)
    ensures KeysOf(KeyCells(keys)) == keys
    ensures forall j :: 0 <= j < |keys| ==> Recovers(None, j, KeyCells(keys)[j])
  {
    assert forall j :: 0 <= j < |keys| ==> KeyOf(KeyCell(keys[j])) == keys[j];
  }

  /** The zero row's keys as `writeObjectArray` stores them. */
  function KeyBytes(keys: JArray<Key>): seq<Byte>
  {
    IntBytes(|keys|) + CellsBytes(KeyCells(keys))
  }

  /** The 'A' body up to the rows: the keys, then the type bytes, then the rows under those types. */
  lemma ArrayRowsWritten(keys: JArray<Key>, fin: seq<int>, size: nat, typesByRowCount: bool, after: seq<Byte>)
    requires |fin| == |keys| && forall j :: 0 <= j < |fin| ==> -TWO_7 <= fin[j] < TWO_7
    requires !typesByRowCount || |keys| <= size
    ensures ArrayRowsFrom(KeyBytes(keys) + (TypeBytes(fin) + after), size, typesByRowCount)
      == RowsFrom(after, keys, fin + Zeros(TypeSlots(size, |keys|, typesByRowCount) - |keys|), size)
  {
    ReadObjectArrayWritten(None, KeyCells(keys), TypeBytes(fin) + after);
    KeysOfKeyCells(keys);
    ReadTypesWritten(fin, after);
    ArrayRowsFromParts(KeyBytes(keys) + (TypeBytes(fin) + after), size, typesByRowCount,
      KeyCells(keys), TypeBytes(fin) + after, fin, after);
  }

  /** The 'A' body once its keys are read. */
  lemma ArrayRowsAfterKeys(s: seq<Byte>, size: nat, typesByRowCount: bool, cells: JArray<Cell>, afterKeys: seq<Byte>)
    requires ReadObjectArrayFrom(s, None) == Success((cells, afterKeys))
    ensures ArrayRowsFrom(s, size, typesByRowCount) == TypedRowsFrom(afterKeys, KeysOf(cells), size, typesByRowCount)
  {
  }

  /** The 'A' body read in its three parts. */
  lemma ArrayRowsFromParts(s: seq<Byte>, size: nat, typesByRowCount: bool, cells: JArray<Cell>, afterKeys: seq<Byte>,
                           types: seq<int>, afterTypes: seq<Byte>)
    requires ReadObjectArrayFrom(s, None) == Success((cells, afterKeys))
    requires |cells| <= TypeSlots(size, |cells|, typesByRowCount)
    requires ReadTypesFrom(afterKeys, |cells|) == Success((types, afterTypes))
    ensures ArrayRowsFrom(s, size, typesByRowCount)
      == RowsFrom(afterTypes, KeysOf(cells), types + Zeros(TypeSlots(size, |cells|, typesByRowCount) - |cells|), size)
  {
    var keys := KeysOf(cells);
    assert |keys| == |cells|;
    ArrayRowsAfterKeys(s, size, typesByRowCount, cells, afterKeys);
    TypedRowsParts(afterKeys, keys, size, typesByRowCount, types, afterTypes);
  }

  lemma TypedRowsParts(s: seq<Byte>, keys: JArray<Key>, size: nat, typesByRowCount: bool, types: seq<int>, afterTypes: seq<Byte>)
    requires |keys| <= TypeSlots(size, |keys|, typesByRowCount)
    requires ReadTypesFrom(s, |keys|) == Success((types, afterTypes))
    ensures TypedRowsFrom(s, keys, size, typesByRowCount)
      == RowsFrom(afterTypes, keys, types + Zeros(TypeSlots(size, |keys|, typesByRowCount) - |keys|), size)
  {
    var slots := TypeSlots(size, |keys|, typesByRowCount);
    assert TypesRead(s, |keys|, slots) == Success((types + Zeros(slots - |keys|), afterTypes));
  }

  /** As written, a type array sized by the row count overflows when there are more columns than rows. */
  lemma ArrayRowsTooNarrow(keys: JArray<Key>, size: nat, after: seq<Byte>)
    requires |keys| > size
    ensures ArrayRowsFrom(KeyBytes(keys) + after, size, true) == Failure(OutOfBounds)
  {
    ReadObjectArrayWritten(None, KeyCells(keys), after);
    KeysOfKeyCells(keys);
  }

  /** The header of a non-empty 'A' list leads to its body. */
  lemma HeaderWritten(n: int32, body: seq<Byte>, typesByRowCount: bool)
    requires n > 0
    ensures DecodeRowsWith(StringBytes(ROWS) + (IntBytes(n) + ([LowByte(ARRAY_ROWS)] + body)), typesByRowCount)
      == ArrayRowsFrom(body, n, typesByRowCount)
  {
    ReadStringWritten(ROWS, IntBytes(n) + ([LowByte(ARRAY_ROWS)] + body));
    ReadIntWritten(n, [LowByte(ARRAY_ROWS)] + body);
    ReadByteWritten(ARRAY_ROWS, body);
  }

  /** The empty list reads back as the empty list. */
  lemma EmptyWritten(tail: seq<Byte>, typesByRowCount: bool)
    ensures DecodeRowsWith(StringBytes(ROWS) + IntBytes(0) + tail, typesByRowCount) == Success([])
  {
    ReadStringWritten(ROWS, IntBytes(0) + tail);
    assert StringBytes(ROWS) + IntBytes(0) + tail == StringBytes(ROWS) + (IntBytes(0) + tail);
    ReadIntWritten(0, tail);
  }

  /** The bytes of a non-empty 'A' list: the header, 'A', the keys, the type bytes, then the rest. */
  function Layout(n: int32, keys: JArray<Key>, fin: seq<int>, after: seq<Byte>): seq<Byte>
  {
    StringBytes(ROWS) + IntBytes(n) + [LowByte(ARRAY_ROWS)] + KeyBytes(keys) + TypeBytes(fin) + after
  }

  lemma LayoutTail(n: int32, keys: JArray<Key>, fin: seq<int>, image: seq<Byte>, tail: seq<Byte>)
    ensures Layout(n, keys, fin, image) + tail == Layout(n, keys, fin, image + tail)
  {
  }

  lemma Regroup(a: seq<Byte>, b: seq<Byte>, c: seq<Byte>, d: seq<Byte>, e: seq<Byte>, f: seq<Byte>)
    ensures a + b + c + d + e + f == a + (b + (c + (d + (e + f))))
  {
  }

  /** Reading a layout: through the header, keys and type bytes to the rows. */
  lemma DecodeLayout(n: int32, keys: JArray<Key>, fin: seq<int>, after: seq<Byte>, typesByRowCount: bool)
    requires n > 0 && |fin| == |keys| && forall j :: 0 <= j < |fin| ==> -TWO_7 <= fin[j] < TWO_7
    requires !typesByRowCount || |keys| <= n
    ensures DecodeRowsWith(Layout(n, keys, fin, after), typesByRowCount)
      == RowsFrom(after, keys, fin + Zeros(TypeSlots(n, |keys|, typesByRowCount) - |keys|), n)
  {
    Regroup(StringBytes(ROWS), IntBytes(n), [LowByte(ARRAY_ROWS)], KeyBytes(keys), TypeBytes(fin), after);
    HeaderWritten(n, KeyBytes(keys) + (TypeBytes(fin) + after), typesByRowCount);
    ArrayRowsWritten(keys, fin, n, typesByRowCount, after);
  }

  lemma DecodeLayoutNarrow(n: int32, keys: JArray<Key>, fin: seq<int>, after: seq<Byte>)
    requires 0 < n < |keys|
    ensures DecodeRowsWith(Layout(n, keys, fin, after), true) == Failure(OutOfBounds)
  {
    Regroup(StringBytes(ROWS), IntBytes(n), [LowByte(ARRAY_ROWS)], KeyBytes(keys), TypeBytes(fin), after);
    HeaderWritten(n, KeyBytes(keys) + (TypeBytes(fin) + after), true);
    ArrayRowsTooNarrow(keys, n, TypeBytes(fin) + after);
  }

  /** An encodable non-empty list is written as a layout of its zero row's keys, the final column types and its value arrays. */
  lemma EncodedLayout(rows: seq<Row>)
    requires |rows| < TWO_31 && rows != [] && rows[0].ArrayRow?
    requires RowsBytes(Unset(|rows[0].keys|), rows).Success? && EncodeRows(rows).Success?
    ensures EncodeRows(rows).value
      == Layout(|rows|, rows[0].keys, RowsBytes(Unset(|rows[0].keys|), rows).value.1, RowsImage(rows))
  {
    var n := |rows[0].keys|;
    RowsBytesShape(Unset(n), rows);
    var k := ObjectArrayBytes(Unset(n), KeyCells(rows[0].keys)).value.0;
    var v := RowsBytes(Unset(n), rows).value;
    Regroup(StringBytes(ROWS), IntBytes(|rows|), [LowByte(ARRAY_ROWS)], k, TypeBytes(v.1), v.0);
    Regroup3(StringBytes(ROWS) + IntBytes(|rows|) + [LowByte(ARRAY_ROWS)], k, TypeBytes(v.1), v.0);
  }

  lemma Regroup3(a: seq<Byte>, b: seq<Byte>, c: seq<Byte>, d: seq<Byte>)
    ensures a + (b + c + d) == a + b + c + d
  {
  }

  /**
   * The pieces an encodable non-empty list is written as: the zero row's keys,
   * the final column types (each UNSET or a type code, and agreeing with
   * every value), and the value arrays.
   */
  lemma EncodedParts(rows: seq<Row>) returns (fin: seq<int>)
    requires |rows| < TWO_31 && rows != [] && Encodable(rows)
    ensures rows[0].ArrayRow? && EncodeRows(rows).Success?
    ensures |fin| == |rows[0].keys|
    ensures forall j :: 0 <= j < |fin| ==> -TWO_7 <= fin[j] < TWO_7
    ensures Typed(fin, rows)
    ensures EncodeRows(rows).value == Layout(|rows|, rows[0].keys, fin, RowsImage(rows))
  {
    var n := |rows[0].keys|;
    EncodeRowsSucceeds(rows);
    RowsBytesFits(Unset(n), rows);
    RowsBytesShape(Unset(n), rows);
    fin := RowsBytes(Unset(n), rows).value.1;
    assert forall j :: 0 <= j < |fin| ==> fin[j] == UNSET || IsType(fin[j]);
    EncodedLayout(rows);
  }

  /** Every value of an encodable list reads back under the final column types. */
  lemma ValuesRecover(rows: seq<Row>, fin: seq<int>, types: seq<int>)
    requires rows != [] && rows[0].ArrayRow? && Fits(Unset(|rows[0].keys|), rows) && Typed(fin, rows) && NoMinDate(rows)
    requires |fin| == |rows[0].keys| && fin <= types
    ensures AllRecover(rows, types)
  {
    var n := |rows[0].keys|;
    forall i, j | 0 <= i < |rows| && 0 <= j < |rows[i].values|
      ensures Recovers(Some(types), j, rows[i].values[j])
    {
      assert j < n && Unset(n)[j] == UNSET;
      assert Admits(UNSET, rows[i].values[j]);
    }
  }

  /** The rows an encodable list is written as come back from its layout, under the given type array. */
  lemma RowsRecovered(rows: seq<Row>, fin: seq<int>, types: seq<int>, tail: seq<Byte>)
    requires rows != [] && rows[0].ArrayRow? && Fits(Unset(|rows[0].keys|), rows) && Typed(fin, rows) && NoMinDate(rows)
    requires |fin| == |rows[0].keys| && fin <= types && None !in rows[0].keys
    ensures forall i :: 0 <= i < |rows| ==> rows[i].ArrayRow?
    ensures RowsFrom(RowsImage(rows) + tail, rows[0].keys, types, |rows|) == Success(Decoded(rows))
  {
    ValuesRecover(rows, fin, types);
    RowsFromWritten(rows, rows[0].keys, types, tail);
  }

  /**
   * `fromBinaryArray(toBinaryArray(rows))`: the same number of rows, each with
   * its own values under the zero row's keys, provided no key is null and no
   * Date is Long.MIN_VALUE. Whatever follows the encoding is left unread.
   */
  lemma EncodeDecode(rows: seq<Row>, tail: seq<Byte>)
    requires |rows| < TWO_31 && Encodable(rows) && NoMinDate(rows)
    requires rows != [] ==> rows[0].ArrayRow? && None !in rows[0].keys
    ensures EncodeRows(rows).Success?
    ensures forall i :: 0 <= i < |rows| ==> rows[i].ArrayRow?
    ensures DecodeRows(EncodeRows(rows).value + tail) == Success(Decoded(rows))
  {
    EncodeRowsSucceeds(rows);
    if rows == [] {
      EmptyWritten(tail, false);
    } else {
      var keys := rows[0].keys;
      var fin := EncodedParts(rows);
      LayoutTail(|rows|, keys, fin, RowsImage(rows), tail);
      DecodeLayout(|rows|, keys, fin, RowsImage(rows) + tail, false);
      assert fin + Zeros(0) == fin;
      RowsRecovered(rows, fin, fin, tail);
    }
  }

  /** Rows that all carry the zero row's keys (full maps sharing one key array) come back unchanged. */
  lemma DecodedSameKeys(rows: seq<Row>)
    requires forall i :: 0 <= i < |rows| ==> rows[i].ArrayRow?
    requires forall i :: 0 <= i < |rows| ==> rows[i].keys == rows[0].keys
    ensures Decoded(rows) == rows
  {
  }

  /** A null key among the zero row's keys is written, but rejected when the first row is rebuilt. */
  lemma NullKeyRejected(rows: seq<Row>, tail: seq<Byte>)
    requires |rows| < TWO_31 && rows != [] && Encodable(rows) && NoMinDate(rows)
    requires rows[0].ArrayRow? && None in rows[0].keys
    ensures EncodeRows(rows).Success?
    ensures DecodeRows(EncodeRows(rows).value + tail) == Failure(NullKey)
  {
    var keys := rows[0].keys;
    var fin := EncodedParts(rows);
    var after := RowsImage(rows) + tail;
    LayoutTail(|rows|, keys, fin, RowsImage(rows), tail);
    DecodeLayout(|rows|, keys, fin, after, false);
    assert fin + Zeros(0) == fin;
    ValuesRecover(rows, fin, fin);
    RowsImageCons(rows, tail);
    ReadObjectArrayWritten(Some(fin), rows[0].values, RowsImage(rows[1..]) + tail);
  }

  /** As written, decoding agrees with the corrected decoder whenever there are at least as many rows as columns. */
  lemma AsWrittenAgrees(rows: seq<Row>, tail: seq<Byte>)
    requires |rows| < TWO_31 && rows != [] && Encodable(rows) && NoMinDate(rows)
    requires rows[0].ArrayRow? && None !in rows[0].keys && |rows[0].keys| <= |rows|
    ensures EncodeRows(rows).Success?
    ensures DecodeRowsAsWritten(EncodeRows(rows).value + tail) == DecodeRows(EncodeRows(rows).value + tail)
  {
    var keys := rows[0].keys;
    var fin := EncodedParts(rows);
    LayoutTail(|rows|, keys, fin, RowsImage(rows), tail);
    DecodeLayout(|rows|, keys, fin, RowsImage(rows) + tail, true);
    RowsRecovered(rows, fin, fin + Zeros(|rows| - |keys|), tail);
    EncodeDecode(rows, tail);
  }

  /** As written, every encodable list with fewer rows than columns fails to read back. */
  lemma AsWrittenFailsOnWideRows(rows: seq<Row>, tail: seq<Byte>)
    requires |rows| < TWO_31 && rows != [] && Encodable(rows)
    requires rows[0].ArrayRow? && |rows| < |rows[0].keys|
    ensures EncodeRows(rows).Success?
    ensures DecodeRowsAsWritten(EncodeRows(rows).value + tail) == Failure(OutOfBounds)
  {
    var fin := EncodedParts(rows);
    LayoutTail(|rows|, rows[0].keys, fin, RowsImage(rows), tail);
    DecodeLayoutNarrow(|rows|, rows[0].keys, fin, RowsImage(rows) + tail);
  }

  /** One row with two int columns: "a" = 1, "b" = 2. */
  function OneRowTwoColumns(): seq<Row>
  {
    [ArrayRow([Some([97]), Some([98])], [Some(IntValue(1)), Some(IntValue(2))])]
  }

  lemma OneRowTwoColumnsEncodable()
    ensures Encodable(OneRowTwoColumns())
  {
    assert Fits(Unset(2), OneRowTwoColumns());
  }

  /** The decoder as written fails on the encoding of one row with two columns: a type array of one slot for two columns. */
  lemma OneRowTwoColumnsAsWritten()
    ensures EncodeRows(OneRowTwoColumns()).Success?
    ensures DecodeRowsAsWritten(EncodeRows(OneRowTwoColumns()).value + []) == Failure(OutOfBounds)
  {
    OneRowTwoColumnsEncodable();
    AsWrittenFailsOnWideRows(OneRowTwoColumns(), []);
  }

  /** The corrected decoder reads the same encoding back as the row itself. */
  lemma OneRowTwoColumnsCorrected()
    ensures EncodeRows(OneRowTwoColumns()).Success?
    ensures DecodeRows(EncodeRows(OneRowTwoColumns()).value + []) == Success(OneRowTwoColumns())
  {
    OneRowTwoColumnsEncodable();
    EncodeDecode(OneRowTwoColumns(), []);
    DecodedSameKeys(OneRowTwoColumns());
  }
}

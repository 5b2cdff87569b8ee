/**
 * The decoding side of the codec: `readObjectArray` and `fromBinaryArray`
 * walking a byte[] with a cursor, each proved equal to the functions of
 * ObjectArrays and RowsFormat that consume the same bytes.
 *
 * Java passes the cursor as a one-element `int[]` that each reader advances;
 * here each reader takes the offset and returns the new one beside its value.
 */
module RowsDecoder {
  import opened Wrappers
  import opened JavaInts
  import opened ByteArrayUtil
  import opened ObjectArrays
  import opened RowsFormat

  /** The type array a reader is given, as a value: null or its contents. */
  function TypesOf(types: array?<int>): Option<seq<int>>
    reads types
  {
    if types == null then None else Some(types[..])
  }

  lemma RestOfRest(s: seq<Byte>, p: seq<Byte>, q: seq<Byte>)
    requires IsRest(s, p) && IsRest(p, q)
    ensures IsRest(s, q)
  {
    assert s[|s| - |p|..][|p| - |q|..] == s[|s| - |q|..];
  }

  /** Reading a payload leaves a suffix of the input. */
  lemma ValueLeavesRest(s: seq<Byte>, t: int)
    ensures ReadValueFrom(s, t).Success? ==> IsRest(s, ReadValueFrom(s, t).value.1)
  {
    ReadersLeaveRest(s);
    if t == BYTE_TYPE {
    } else if t == INT_TYPE {
    } else if t == LONG_TYPE || t == DOUBLE_TYPE {
    } else if t == BOOLEAN_TYPE {
    } else if t == STRING_TYPE {
    } else if t == DATE_TYPE {
    }
  }

  /** Reading one element leaves a suffix of the input. */
  lemma ItemLeavesRest(s: seq<Byte>, types: Option<seq<int>>, i: nat)
    ensures ReadItemFrom(s, types, i).Success? ==> IsRest(s, ReadItemFrom(s, types, i).value.1)
  {
    ReadersLeaveRest(s);
    var p := ReadByteFrom(s);
    if p.Success? && p.value.0 == 1 && TypeAt(types, i).Success? {
      ValueLeavesRest(p.value.1, TypeAt(types, i).value);
      if ReadItemFrom(s, types, i).Success? {
        RestOfRest(s, p.value.1, ReadItemFrom(s, types, i).value.1);
      }
    }
  }

  // ---------------------------------------------------------------------------
  // readObjectArray

  /** The if-chain on the type code: one payload read by the matching ByteArrayUtil reader. */
  method ReadValue(bytes: array<Byte>, offset: nat, t: int) returns (r: Result<(Cell, nat), Error>)
    ensures r == Positioned(ReadValueFrom(Suffix(bytes[..], offset), t), bytes.Length)
  {
    if t == BYTE_TYPE {
      var v := ReadByte(bytes, offset);
      if v.Failure? { return Failure(v.error); }
      r := Success((Some(ByteValue(v.value.0)), v.value.1));
    } else if t == INT_TYPE {
      var v := ReadInt(bytes, offset);
      if v.Failure? { return Failure(v.error); }
      r := Success((Some(IntValue(v.value.0)), v.value.1));
    } else if t == LONG_TYPE {
      var v := ReadLong(bytes, offset);
      if v.Failure? { return Failure(v.error); }
      r := Success((Some(LongValue(v.value.0)), v.value.1));
    } else if t == DOUBLE_TYPE {
      var v := ReadDouble(bytes, offset);
      if v.Failure? { return Failure(v.error); }
      r := Success((Some(DoubleValue(v.value.0)), v.value.1));
    } else if t == BOOLEAN_TYPE {
      var v := ReadBoolean(bytes, offset);
      if v.Failure? { return Failure(v.error); }
      r := Success((Some(BooleanValue(v.value.0)), v.value.1));
    } else if t == STRING_TYPE {
      var v := ReadString(bytes, offset);
      if v.Failure? { return Failure(v.error); }
      r := Success((if v.value.0.None? then None else Some(StringValue(v.value.0.value)), v.value.1));
    } else if t == DATE_TYPE {
      var v := ReadDate(bytes, offset);
      if v.Failure? { return Failure(v.error); }
      r := Success((if v.value.0.None? then None else Some(DateValue(v.value.0.value)), v.value.1));
    } else {
      r := Failure(UnexpectedType(t));
    }
  }

  /** One element at position i: the presence byte, then the payload under the position's type. */
  method ReadItem(bytes: array<Byte>, offset: nat, types: array?<int>, i: nat) returns (r: Result<(Cell, nat), Error>)
    ensures r == Positioned(ReadItemFrom(Suffix(bytes[..], offset), TypesOf(types), i), bytes.Length)
  {
    ghost var s := Suffix(bytes[..], offset);
    var nil := ReadByte(bytes, offset);
    if nil.Failure? {
      return Failure(nil.error);
    }
    ReadersLeaveRest(s);
    RestAt(bytes[..], offset, ReadByteFrom(s).value.1);
    if nil.value.0 == 0 {
      return Success((None, nil.value.1));
    }
    if nil.value.0 != 1 {
      return Failure(BadPresence(nil.value.0));
    }
    var t: int;
    if types == null {
      t := STRING_TYPE;
    } else if i < types.Length {
      t := types[i];
    } else {
      return Failure(OutOfBounds);
    }
    r := ReadValue(bytes, nil.value.1, t);
  }

  /** What ReadItem returns on success: the element and the offset where the rest begins. */
  lemma ItemRead(b: seq<Byte>, cur: nat, types: Option<seq<int>>, i: nat, item: Result<(Cell, nat), Error>)
    requires item == Positioned(ReadItemFrom(Suffix(b, cur), types, i), |b|) && item.Success?
    ensures ReadItemFrom(Suffix(b, cur), types, i).Success?
    ensures ReadItemFrom(Suffix(b, cur), types, i).value.0 == item.value.0
    ensures Suffix(b, item.value.1) == ReadItemFrom(Suffix(b, cur), types, i).value.1 && item.value.1 <= |b|
  {
    ItemLeavesRest(Suffix(b, cur), types, i);
    RestAt(b, cur, ReadItemFrom(Suffix(b, cur), types, i).value.1);
  }

  /** `new Object[n]`: every element null. */
  method NewCells(n: nat) returns (result: array<Cell>)
    ensures fresh(result) && result.Length == n
    ensures forall j :: 0 <= j < n ==> result[j] == None
  {
    result := new Cell[n](_ => None);
  }

  /** The loop of `readObjectArray` after i elements, the cursor at cur. */
  predicate ItemsRead(b: seq<Byte>, start: nat, types: Option<seq<int>>, n: nat, result: seq<Cell>, i: nat, cur: nat)
  {
    |result| == n && i <= n && cur <= |b| &&
    (forall j :: i <= j < n ==> result[j] == None) &&
    ReadItemsFrom(Suffix(b, start), types, 0, n) == Prepended(result[..i], ReadItemsFrom(Suffix(b, cur), types, i, n))
  }

  lemma ItemsReadStart(b: seq<Byte>, start: nat, types: Option<seq<int>>, n: nat, result: seq<Cell>)
    requires |result| == n && start <= |b|
    requires forall j :: 0 <= j < n ==> result[j] == None
    ensures ItemsRead(b, start, types, n, result, 0, start)
  {
    var r := ReadItemsFrom(Suffix(b, start), types, 0, n);
    if r.Success? {
      assert result[..0] + r.value.0 == r.value.0;
    }
  }

  /** Reading element i at cur, leaving the buffer from next, extends what has been read by it. */
  lemma ItemsReadStep(b: seq<Byte>, start: nat, types: Option<seq<int>>, n: nat, result: seq<Cell>, i: nat, cur: nat,
                      c: Cell, next: nat, result': seq<Cell>)
    requires ItemsRead(b, start, types, n, result, i, cur) && i < n
    requires ReadItemFrom(Suffix(b, cur), types, i).Success?
    requires ReadItemFrom(Suffix(b, cur), types, i).value.0 == c
    requires Suffix(b, next) == ReadItemFrom(Suffix(b, cur), types, i).value.1 && next <= |b|
    requires result' == result[i := c]
    ensures ItemsRead(b, start, types, n, result', i + 1, next)
  {
    var tail := ReadItemsFrom(Suffix(b, next), types, i + 1, n);
    assert ReadItemsFrom(Suffix(b, cur), types, i, n) == Prepended([c], tail);
    assert result'[..i + 1] == result[..i] + [c];
    PrependedTwice(result[..i], [c], tail);
  }

  /** A failing element makes the whole array fail with its error. */
  lemma ItemsReadFailure(b: seq<Byte>, start: nat, types: Option<seq<int>>, n: nat, result: seq<Cell>, i: nat, cur: nat)
    requires ItemsRead(b, start, types, n, result, i, cur) && i < n
    requires ReadItemFrom(Suffix(b, cur), types, i).Failure?
    ensures ReadItemsFrom(Suffix(b, start), types, 0, n) == Failure(ReadItemFrom(Suffix(b, cur), types, i).error)
  {
  }

  lemma ItemsReadEnd(b: seq<Byte>, start: nat, types: Option<seq<int>>, n: nat, result: seq<Cell>, cur: nat)
    requires ItemsRead(b, start, types, n, result, n, cur)
    ensures ReadItemsFrom(Suffix(b, start), types, 0, n) == Success((result, Suffix(b, cur)))
    ensures |Suffix(b, cur)| == |b| - cur
  {
    assert result[..n] + [] == result;
  }

  /** The element loop of `readObjectArray`, into a fresh array of n nulls. */
  method ReadItems(bytes: array<Byte>, start: nat, n: nat, types: array?<int>) returns (r: Result<(JArray<Cell>, nat), Error>)
    requires start <= bytes.Length && n < TWO_31
    ensures r == Positioned(ReadItemsFrom(Suffix(bytes[..], start), TypesOf(types), 0, n), bytes.Length)
  {
    ghost var b := bytes[..];
    ghost var ts := TypesOf(types);
    var result := NewCells(n);
    ItemsReadStart(b, start, ts, n, result[..]);
    var i := 0;
    var cur := start;
    while i < n
      invariant bytes[..] == b && TypesOf(types) == ts
      invariant ItemsRead(b, start, ts, n, result[..], i, cur)
    {
      var item := ReadItem(bytes, cur, types, i);
      if item.Failure? {
        ItemsReadFailure(b, start, ts, n, result[..], i, cur);
        return Failure(item.error);
      }
      var (c, next) := item.value;
      ItemRead(b, cur, ts, i, item);
      ghost var before := result[..];
      if c != None {
        result[i] := c;
      }
      assert result[..] == before[i := c];
      ItemsReadStep(b, start, ts, n, before, i, cur, c, next, result[..]);
      i := i + 1;
      cur := next;
    }
    ItemsReadEnd(b, start, ts, n, result[..], cur);
    r := Success((result[..], cur));
  }

  /**
   * `readObjectArray`: the length, then each element, a null one leaving its
   * slot null. A negative length fails allocating the result.
   */
  method ReadObjectArray(bytes: array<Byte>, offset: nat, types: array?<int>) returns (r: Result<(JArray<Cell>, nat), Error>)
    ensures r == Positioned(ReadObjectArrayFrom(Suffix(bytes[..], offset), TypesOf(types)), bytes.Length)
  {
    var count := ReadInt(bytes, offset);
    if count.Failure? {
      return Failure(count.error);
    }
    var (n, start) := count.value;
    if n < 0 {
      return Failure(NegativeLength(n));
    }
    ReadersLeaveRest(Suffix(bytes[..], offset));
    RestAt(bytes[..], offset, ReadIntFrom(Suffix(bytes[..], offset)).value.1);
    r := ReadItems(bytes, start, n, types);
  }

  // ---------------------------------------------------------------------------
  // convertBinaryArrayToArrayMapRows and fromBinaryArray

  /** Reading the elements i to n - 1 leaves a suffix of the input. */
  lemma {:induction false} ItemsLeaveRest(s: seq<Byte>, types: Option<seq<int>>, i: nat, n: nat)
    requires i <= n
    decreases n - i
    ensures ReadItemsFrom(s, types, i, n).Success? ==> IsRest(s, ReadItemsFrom(s, types, i, n).value.1)
  {
    if i < n {
      ItemLeavesRest(s, types, i);
      var c := ReadItemFrom(s, types, i);
      if c.Success? {
        ItemsLeaveRest(c.value.1, types, i + 1, n);
        if ReadItemsFrom(s, types, i, n).Success? {
          RestOfRest(s, c.value.1, ReadItemsFrom(s, types, i, n).value.1);
        }
      }
    }
  }

  lemma ObjectArrayLeavesRest(s: seq<Byte>, types: Option<seq<int>>)
    ensures ReadObjectArrayFrom(s, types).Success? ==> IsRest(s, ReadObjectArrayFrom(s, types).value.1)
  {
    ReadersLeaveRest(s);
    var n := ReadIntFrom(s);
    if n.Success? && n.value.0 >= 0 {
      ItemsLeaveRest(n.value.1, types, 0, n.value.0);
      if ReadObjectArrayFrom(s, types).Success? {
        RestOfRest(s, n.value.1, ReadObjectArrayFrom(s, types).value.1);
      }
    }
  }

  lemma {:induction false} TypesLeaveRest(s: seq<Byte>, k: nat)
    ensures ReadTypesFrom(s, k).Success? ==> IsRest(s, ReadTypesFrom(s, k).value.1)
  {
    if k > 0 {
      ReadersLeaveRest(s);
      var b := ReadByteFrom(s);
      if b.Success? {
        TypesLeaveRest(b.value.1, k - 1);
        if ReadTypesFrom(s, k).Success? {
          RestOfRest(s, b.value.1, ReadTypesFrom(s, k).value.1);
        }
      }
    }
  }

  /** `keys[i] = (String) objectKeys[i]` for every i. */
  method CastKeys(objectKeys: JArray<Cell>) returns (keys: JArray<Key>)
    ensures keys == KeysOf(objectKeys)
  {
    var ks := new Key[|objectKeys|](_ => None);
    for i := 0 to |objectKeys|
      invariant forall j :: 0 <= j < i ==> ks[j] == KeyOf(objectKeys[j])
    {
      ks[i] := KeyOf(objectKeys[i]);
    }
    keys := ks[..];
  }

  /** `new int[n]`: every slot 0. */
  method NewZeros(n: nat) returns (types: array<int>)
    ensures fresh(types) && types[..] == Zeros(n)
  {
    types := new int[n](_ => 0);
    assert types[..] == Zeros(n);
  }

  /** The loop storing type bytes after i columns, the cursor at cur. */
  predicate TypesStored(b: seq<Byte>, start: nat, k: nat, stored: seq<int>, done: seq<int>, i: nat, cur: nat)
  {
    i <= k && i <= |stored| && |done| == i && cur <= |b| &&
    stored == done + Zeros(|stored| - i) &&
    ReadTypesFrom(Suffix(b, start), k) == Prepended(done, ReadTypesFrom(Suffix(b, cur), k - i))
  }

  lemma TypesStoredStart(b: seq<Byte>, start: nat, k: nat, stored: seq<int>)
    requires stored == Zeros(|stored|) && start <= |b|
    ensures TypesStored(b, start, k, stored, [], 0, start)
  {
    var r := ReadTypesFrom(Suffix(b, start), k);
    if r.Success? {
      assert [] + r.value.0 == r.value.0;
    }
    assert stored == [] + Zeros(|stored|);
  }

  lemma TypesStoredStep(b: seq<Byte>, start: nat, k: nat, stored: seq<int>, done: seq<int>, i: nat, cur: nat,
                        t: int8, next: nat)
    requires TypesStored(b, start, k, stored, done, i, cur) && i < k && i < |stored|
    requires ReadByteFrom(Suffix(b, cur)).Success? && ReadByteFrom(Suffix(b, cur)).value.0 == t
    requires Suffix(b, next) == ReadByteFrom(Suffix(b, cur)).value.1 && next <= |b|
    ensures TypesStored(b, start, k, stored[i := t as int], done + [t as int], i + 1, next)
  {
    var tail := ReadTypesFrom(Suffix(b, next), k - i - 1);
    assert ReadTypesFrom(Suffix(b, cur), k - i) == Prepended([t as int], tail);
    PrependedTwice(done, [t as int], tail);
    assert stored[i := t as int] == (done + [t as int]) + Zeros(|stored| - (i + 1));
  }

  lemma TypesStoredEnd(b: seq<Byte>, start: nat, k: nat, stored: seq<int>, done: seq<int>, cur: nat)
    requires TypesStored(b, start, k, stored, done, k, cur)
    ensures Positioned(TypesRead(Suffix(b, start), k, |stored|), |b|) == Success((stored, cur))
  {
    assert done + [] == done;
  }

  /** `valueTypes[i] = readByte(...)` for the k columns, into a fresh array of zeros. */
  method ReadValueTypes(bytes: array<Byte>, offset: nat, valueTypes: array<int>, k: nat) returns (r: Result<nat, Error>)
    requires offset <= bytes.Length && valueTypes[..] == Zeros(valueTypes.Length)
    modifies valueTypes
    ensures r.Failure? ==> Positioned(TypesRead(Suffix(bytes[..], offset), k, valueTypes.Length), bytes.Length) == Failure(r.error)
    ensures r.Success? ==> Positioned(TypesRead(Suffix(bytes[..], offset), k, valueTypes.Length), bytes.Length) == Success((valueTypes[..], r.value))
  {
    ghost var b := bytes[..];
    ghost var done: seq<int> := [];
    TypesStoredStart(b, offset, k, valueTypes[..]);
    var i := 0;
    var cur := offset;
    while i < k
      invariant bytes[..] == b
      invariant TypesStored(b, offset, k, valueTypes[..], done, i, cur)
    {
      var t := ReadByte(bytes, cur);
      if t.Failure? {
        return Failure(t.error);
      }
      if i >= valueTypes.Length {
        return Failure(OutOfBounds);
      }
      ReadersLeaveRest(Suffix(b, cur));
      RestAt(b, cur, ReadByteFrom(Suffix(b, cur)).value.1);
      TypesStoredStep(b, offset, k, valueTypes[..], done, i, cur, t.value.0, t.value.1);
      valueTypes[i] := t.value.0 as int;
      done := done + [t.value.0 as int];
      i := i + 1;
      cur := t.value.1;
    }
    TypesStoredEnd(b, offset, k, valueTypes[..], done, cur);
    r := Success(cur);
  }

  /** A decoding outcome with the rows built so far put in front. */
  function RowsAfter(done: seq<Row>, r: Result<seq<Row>, Error>): Result<seq<Row>, Error>
  {
    match r
    case Success(rows) => Success(done + rows)
    case Failure(e) => Failure(e)
  }

  /** The row loop after i of count rows, the cursor at cur. */
  predicate RowsRead(b: seq<Byte>, start: nat, keys: JArray<Key>, types: seq<int>, count: nat, rows: seq<Row>, i: nat, cur: nat)
  {
    i <= count && cur <= |b| &&
    RowsFrom(Suffix(b, start), keys, types, count) == RowsAfter(rows, RowsFrom(Suffix(b, cur), keys, types, count - i))
  }

  lemma RowsReadStart(b: seq<Byte>, start: nat, keys: JArray<Key>, types: seq<int>, count: nat)
    requires start <= |b|
    ensures RowsRead(b, start, keys, types, count, [], 0, start)
  {
    var r := RowsFrom(Suffix(b, start), keys, types, count);
    if r.Success? {
      assert [] + r.value == r.value;
    }
  }

  lemma RowsReadStep(b: seq<Byte>, start: nat, keys: JArray<Key>, types: seq<int>, count: nat, rows: seq<Row>, i: nat, cur: nat,
                     values: JArray<Cell>, next: nat)
    requires RowsRead(b, start, keys, types, count, rows, i, cur) && i < count && None !in keys
    requires ReadObjectArrayFrom(Suffix(b, cur), Some(types)).Success?
    requires ReadObjectArrayFrom(Suffix(b, cur), Some(types)).value.0 == values
    requires Suffix(b, next) == ReadObjectArrayFrom(Suffix(b, cur), Some(types)).value.1 && next <= |b|
    ensures RowsRead(b, start, keys, types, count, rows + [ArrayRow(keys, values)], i + 1, next)
  {
    var tail := RowsFrom(Suffix(b, next), keys, types, count - i - 1);
    assert RowsFrom(Suffix(b, cur), keys, types, count - i) == RowsAfter([ArrayRow(keys, values)], tail);
    if tail.Success? {
      assert rows + ([ArrayRow(keys, values)] + tail.value) == (rows + [ArrayRow(keys, values)]) + tail.value;
    }
  }

  /** `rows.add(new Row(new ArrayMap<>(keys, readObjectArray(...))))` for each of the count rows. */
  method ReadRows(bytes: array<Byte>, offset: nat, keys: JArray<Key>, valueTypes: array<int>, count: nat) returns (r: Result<seq<Row>, Error>)
    requires offset <= bytes.Length
    ensures r == RowsFrom(Suffix(bytes[..], offset), keys, valueTypes[..], count)
  {
    ghost var b := bytes[..];
    ghost var types := valueTypes[..];
    var rows: seq<Row> := [];
    RowsReadStart(b, offset, keys, types, count);
    var i := 0;
    var cur := offset;
    while i < count
      invariant RowsRead(b, offset, keys, types, count, rows, i, cur)
    {
      var v := ReadObjectArray(bytes, cur, valueTypes);
      if v.Failure? {
        return Failure(v.error);
      }
      if None in keys {
        return Failure(NullKey);
      }
      ObjectArrayLeavesRest(Suffix(b, cur), Some(types));
      RestAt(b, cur, ReadObjectArrayFrom(Suffix(b, cur), Some(types)).value.1);
      RowsReadStep(b, offset, keys, types, count, rows, i, cur, v.value.0, v.value.1);
      rows := rows + [ArrayRow(keys, v.value.0)];
      i := i + 1;
      cur := v.value.1;
    }
    assert rows + [] == rows;
    r := Success(rows);
  }

  lemma TypesReadLeavesRest(s: seq<Byte>, k: nat, slots: nat)
    ensures TypesRead(s, k, slots).Success? ==> IsRest(s, TypesRead(s, k, slots).value.1)
  {
    TypesLeaveRest(s, k);
  }

  /**
   * `convertBinaryArrayToArrayMapRows`: a negative row count fails sizing the
   * list; then the keys, the type bytes and the rows.
   */
  method ConvertBinaryArrayToArrayRows(bytes: array<Byte>, offset: nat, size: int32, typesByRowCount: bool) returns (r: Result<seq<Row>, Error>)
    ensures size < 0 ==> r == Failure(NegativeLength(size))
    ensures size >= 0 ==> r == ArrayRowsFrom(Suffix(bytes[..], offset), size, typesByRowCount)
  {
    if size < 0 {
      return Failure(NegativeLength(size));
    }
    ghost var b := bytes[..];
    var k := ReadObjectArray(bytes, offset, null);
    if k.Failure? {
      return Failure(k.error);
    }
    ghost var keyArray := ReadObjectArrayFrom(Suffix(b, offset), None);
    ObjectArrayLeavesRest(Suffix(b, offset), None);
    Advanced(b, offset, keyArray, k);
    ghost var cells, afterKeys := keyArray.value.0, keyArray.value.1;
    ArrayRowsAfterKeys(Suffix(b, offset), size, typesByRowCount, cells, afterKeys);
    var keys := CastKeys(k.value.0);
    var valueTypes := NewZeros(TypeSlots(size, |keys|, typesByRowCount));
    var t := ReadValueTypes(bytes, k.value.1, valueTypes, |keys|);
    ghost var types := TypesRead(afterKeys, |keys|, valueTypes.Length);
    if t.Failure? {
      return Failure(t.error);
    }
    assert bytes[..] == b;
    TypesReadLeavesRest(afterKeys, |keys|, valueTypes.Length);
    Advanced(b, k.value.1, types, Success((valueTypes[..], t.value)));
    ghost var afterTypes := types.value.1;
    assert TypedRowsFrom(afterKeys, KeysOf(cells), size, typesByRowCount) == RowsFrom(afterTypes, keys, valueTypes[..], size);
    r := ReadRows(bytes, t.value, keys, valueTypes, size);
  }

  /** A reader method's success, read back as its function's: the value, and the rest at the returned offset. */
  lemma Advanced<T>(b: seq<Byte>, cur: nat, spec: Result<(T, seq<Byte>), Error>, res: Result<(T, nat), Error>)
    requires res == Positioned(spec, |b|) && res.Success?
    requires spec.Success? ==> IsRest(Suffix(b, cur), spec.value.1)
    ensures spec.Success? && spec.value.0 == res.value.0
    ensures Suffix(b, res.value.1) == spec.value.1 && res.value.1 <= |b|
  {
    RestAt(b, cur, spec.value.1);
  }

  /**
   * `fromBinaryArray`: the "ROWS" header, the row count, then the body tag;
   * `typesByRowCount` chooses the size of the type array (true as written).
   */
  method FromBinaryArray(bytes: array<Byte>, typesByRowCount: bool) returns (r: Result<seq<Row>, Error>)
    ensures r == DecodeRowsWith(bytes[..], typesByRowCount)
  {
    ghost var b := bytes[..];
    assert Suffix(b, 0) == b;
    ghost var h := ReadStringFrom(b);
    var header := ReadString(bytes, 0);
    if header.Failure? {
      return Failure(header.error);
    }
    ReadersLeaveRest(b);
    Advanced(b, 0, h, header);
    if header.value.0 != Some(ROWS) {
      return Failure(BadHeader);
    }
    ghost var c := ReadIntFrom(h.value.1);
    var size := ReadInt(bytes, header.value.1);
    if size.Failure? {
      return Failure(size.error);
    }
    ReadersLeaveRest(h.value.1);
    Advanced(b, header.value.1, c, size);
    if size.value.0 == 0 {
      return Success([]);
    }
    ghost var d := ReadByteFrom(c.value.1);
    var tag := ReadByte(bytes, size.value.1);
    if tag.Failure? {
      return Failure(tag.error);
    }
    ReadersLeaveRest(c.value.1);
    Advanced(b, size.value.1, d, tag);
    if tag.value.0 == HASH_ROWS {
      return Failure(SerializedForm);
    } else if tag.value.0 == ARRAY_ROWS {
      r := ConvertBinaryArrayToArrayRows(bytes, tag.value.1, size.value.0, typesByRowCount);
    } else {
      return Failure(BadFormat(tag.value.0));
    }
  }
}

/**
 * The codec's imperative side: `writeObjectArray`, `readObjectArray`,
 * `toBinaryArray` and `fromBinaryArray` over a byte[] and an offset cursor,
 * each proved against the functions of ObjectArrays and RowsFormat.
 */
module RowsCodec {
  import opened Wrappers
  import opened JavaInts
  import opened ByteArrayUtil
  import opened ObjectArrays
  import opened RowsFormat

  /** The bytes of an encoding that also yields type codes. */
  function BytesOf(r: Result<(seq<Byte>, seq<int>), Error>): Result<seq<Byte>, Error>
  {
    match r
    case Success((b, _)) => Success(b)
    case Failure(e) => Failure(e)
  }

  function ItemBytes(t: int, c: Cell): (r: Result<seq<Byte>, Error>)
    ensures r.Success? <==> Admits(t, c)
    ensures r.Success? ==> r.value == CellBytes(c)
    ensures r.Failure? ==> r.error == Item(t, c).error
  {
    match Item(t, c)
    case Success((_, b)) => Success(b)
    case Failure(e) => Failure(e)
  }

  // ---------------------------------------------------------------------------
  // writeObjectArray

  /** The payload branch of `writeObjectArray`: the writer for type code t, after the cast to its class. */
  method WritePayload(bytes: array<Byte>, offset: nat, t: int, v: Value) returns (r: Result<nat, Error>)
    modifies bytes
    ensures Emitted(bytes, offset, Payload(t, v), r)
  {
    if t == BYTE_TYPE {
      if !v.ByteValue? { return Failure(ClassCast); }
      r := WriteByte(bytes, offset, v.b);
    } else if t == INT_TYPE {
      if !v.IntValue? { return Failure(ClassCast); }
      r := WriteInt(bytes, offset, v.i);
    } else if t == LONG_TYPE {
      if !v.LongValue? { return Failure(ClassCast); }
      r := WriteLong(bytes, offset, v.l);
    } else if t == DOUBLE_TYPE {
      if !v.DoubleValue? { return Failure(ClassCast); }
      r := WriteDouble(bytes, offset, v.bits);
    } else if t == BOOLEAN_TYPE {
      if !v.BooleanValue? { return Failure(ClassCast); }
      r := WriteBoolean(bytes, offset, v.z);
    } else if t == STRING_TYPE {
      if !v.StringValue? { return Failure(ClassCast); }
      r := WriteString(bytes, offset, v.s);
    } else if t == DATE_TYPE {
      if !v.DateValue? { return Failure(ClassCast); }
      r := WriteDate(bytes, offset, v.millis);
    } else {
      r := Failure(UnexpectedType(t));
    }
  }

  /**
   * One element of `writeObjectArray`: the presence byte, then for a non-null
   * element its type code (fixed here from its class when still -1) and payload.
   */
  method WriteItem(bytes: array<Byte>, offset: nat, types: array<int>, i: nat, c: Cell) returns (r: Result<nat, Error>)
    requires i < types.Length
    modifies bytes, types
    ensures Emitted(bytes, offset, ItemBytes(old(types[i]), c), r)
    ensures r.Success? ==> types[..] == old(types[..])[i := Item(old(types[i]), c).value.0]
  {
    if c.None? {
      r := WriteByte(bytes, offset, 0);
      return;
    }
    var v := c.value;
    ghost var b0 := bytes[..];
    var p := WriteByte(bytes, offset, 1);
    if p.Failure? {
      return p;
    }
    ghost var b1 := bytes[..];
    var t := types[i];
    if t == UNSET {
      var g := TypeOf(v);   // the instanceof chain
      if g.None? {
        return Failure(UnsupportedClass);
      }
      t := g.value;
      types[i] := t;
    }
    r := WritePayload(bytes, p.value, t, v);
    if r.Success? {
      StoredThen(b0, b1, bytes[..], offset, p.value, r.value, [1], PayloadBytes(v));
    }
  }

  lemma {:induction false} CellsBytesAppend(a: seq<Cell>, b: seq<Cell>)
    ensures CellsBytes(a + b) == CellsBytes(a) + CellsBytes(b)
    decreases |a|
  {
    if a == [] {
      assert a + b == b;
    } else {
      assert (a + b)[1..] == a[1..] + b;
      CellsBytesAppend(a[1..], b);
    }
  }

  /** The bytes of the first i + 1 elements, and that they start the bytes of all of them. */
  lemma CellsBytesPrefix(cs: seq<Cell>, i: nat)
    requires i < |cs|
    ensures CellsBytes(cs[..i + 1]) == CellsBytes(cs[..i]) + CellBytes(cs[i])
    ensures |CellsBytes(cs[..i + 1])| <= |CellsBytes(cs)|
  {
    assert cs[..i + 1] == cs[..i] + [cs[i]];
    CellsBytesAppend(cs[..i], [cs[i]]);
    assert CellsBytes([cs[i]]) == CellBytes(cs[i]) + CellsBytes([]);
    assert cs == cs[..i + 1] + cs[i + 1..];
    CellsBytesAppend(cs[..i + 1], cs[i + 1..]);
  }

  /** The buffer holds `done` from offset, up to cur, and nothing else changed. */
  predicate DoneStored(b0: seq<Byte>, b: seq<Byte>, offset: nat, cur: nat, done: seq<Byte>)
  {
    |b| == |b0| && cur == offset + |done| <= |b| && b == b0[..offset] + done + b0[cur..]
  }

  lemma DoneStoredStep(b0: seq<Byte>, mid: seq<Byte>, after: seq<Byte>, offset: nat, cur: nat, done: seq<Byte>, d: seq<Byte>, next: nat)
    requires DoneStored(b0, mid, offset, cur, done)
    requires next == cur + |d| <= |mid| == |after|
    requires after == mid[..cur] + d + mid[next..]
    ensures DoneStored(b0, after, offset, next, done + d)
  {
    WroteThen(b0, mid, after, offset, done, d);
  }

  /**
   * `writeObjectArray` after i elements: the first i admitted and their type
   * codes settled, the rest untouched, and the buffer holding the count and
   * the first i elements from offset up to cur.
   */
  predicate ItemsWritten(b0: seq<Byte>, b: seq<Byte>, offset: nat, ts: seq<int>, types: seq<int>, cells: seq<Cell>, i: nat, cur: nat)
  {
    ItemsTyped(ts, types, cells, i) && ItemsStored(b0, b, offset, cells, i, cur)
  }

  predicate ItemsTyped(ts: seq<int>, types: seq<int>, cells: seq<Cell>, i: nat)
  {
    |ts| == |types| == |cells| < TWO_31 && i <= |cells|
    && (forall j :: 0 <= j < i ==> Admits(ts[j], cells[j]) && Settles(ts[j], cells[j], types[j]))
    && (forall j :: i <= j < |cells| ==> types[j] == ts[j])
  }

  predicate ItemsStored(b0: seq<Byte>, b: seq<Byte>, offset: nat, cells: seq<Cell>, i: nat, cur: nat)
  {
    |cells| < TWO_31 && i <= |cells| && DoneStored(b0, b, offset, cur, IntBytes(|cells|) + CellsBytes(cells[..i]))
  }

  lemma ItemsWrittenStart(b0: seq<Byte>, b: seq<Byte>, offset: nat, ts: seq<int>, cells: seq<Cell>)
    requires |ts| == |cells| < TWO_31 && offset + 4 <= |b0| == |b|
    requires b == b0[..offset] + IntBytes(|cells|) + b0[offset + 4..]
    ensures ItemsWritten(b0, b, offset, ts, ts, cells, 0, offset + 4)
  {
    assert cells[..0] == [];
  }

  /** One more element written. */
  lemma ItemsWrittenStep(b0: seq<Byte>, mid: seq<Byte>, after: seq<Byte>, offset: nat, ts: seq<int>, types: seq<int>,
                         cells: seq<Cell>, i: nat, cur: nat, next: nat)
    requires ItemsWritten(b0, mid, offset, ts, types, cells, i, cur) && i < |cells|
    requires Admits(ts[i], cells[i])
    requires next == cur + |CellBytes(cells[i])| <= |mid| == |after|
    requires after == mid[..cur] + CellBytes(cells[i]) + mid[next..]
    ensures ItemsWritten(b0, after, offset, ts, types[i := Item(ts[i], cells[i]).value.0], cells, i + 1, next)
  {
    ItemsTypedStep(ts, types, cells, i);
    ItemsStoredStep(b0, mid, after, offset, cells, i, cur, next);
  }

  lemma ItemsTypedStep(ts: seq<int>, types: seq<int>, cells: seq<Cell>, i: nat)
    requires ItemsTyped(ts, types, cells, i) && i < |cells| && Admits(ts[i], cells[i])
    ensures ItemsTyped(ts, types[i := Item(ts[i], cells[i]).value.0], cells, i + 1)
  {
  }

  lemma ItemsStoredStep(b0: seq<Byte>, mid: seq<Byte>, after: seq<Byte>, offset: nat, cells: seq<Cell>, i: nat, cur: nat, next: nat)
    requires ItemsStored(b0, mid, offset, cells, i, cur) && i < |cells|
    requires next == cur + |CellBytes(cells[i])| <= |mid| == |after|
    requires after == mid[..cur] + CellBytes(cells[i]) + mid[next..]
    ensures ItemsStored(b0, after, offset, cells, i + 1, next)
  {
    CellsBytesPrefix(cells, i);
    Associative(IntBytes(|cells|), CellsBytes(cells[..i]), CellBytes(cells[i]));
    DoneStoredStep(b0, mid, after, offset, cur, IntBytes(|cells|) + CellsBytes(cells[..i]), CellBytes(cells[i]), next);
  }

  /** All elements written: the array's specified bytes and type codes. */
  lemma ItemsWrittenEnd(b0: seq<Byte>, b: seq<Byte>, offset: nat, ts: seq<int>, types: seq<int>, cells: JArray<Cell>, cur: nat)
    requires ItemsWritten(b0, b, offset, ts, types, cells, |cells|, cur)
    ensures ObjectArrayBytes(ts, cells).Success?
    ensures cur == offset + |ObjectArrayBytes(ts, cells).value.0|
    ensures b == b0[..offset] + ObjectArrayBytes(ts, cells).value.0 + b0[cur..]
    ensures types == ObjectArrayBytes(ts, cells).value.1
  {
    assert cells[..|cells|] == cells;
    SettledTypes(ts, cells, types, ObjectArrayBytes(ts, cells).value.1);
  }

  /** The first element that is not admitted decides the error. */
  lemma {:induction false} ItemsFirstFailure(ts: seq<int>, cs: seq<Cell>, i: nat)
    requires |ts| == |cs| && i < |cs|
    requires forall j :: 0 <= j < i ==> Admits(ts[j], cs[j])
    requires Item(ts[i], cs[i]).Failure?
    ensures Items(ts, cs) == Failure(Item(ts[i], cs[i]).error)
    decreases i
  {
    if i > 0 {
      assert forall j :: 0 <= j < i - 1 ==> ts[1..][j] == ts[j + 1] && cs[1..][j] == cs[j + 1];
      ItemsFirstFailure(ts[1..], cs[1..], i - 1);
    }
  }

  /** An element that fails to be written makes the whole array fail the same way. */
  lemma ItemFailed(ts: seq<int>, cells: JArray<Cell>, i: nat, offset: nat, cur: nat, length: nat, e: Error)
    requires |ts| == |cells| && i < |cells|
    requires forall j :: 0 <= j < i ==> Admits(ts[j], cells[j])
    requires cur == offset + 4 + |CellsBytes(cells[..i])|
    requires FailsAs(ItemBytes(ts[i], cells[i]), cur, length, e)
    ensures FailsAs(BytesOf(ObjectArrayBytes(ts, cells)), offset, length, e)
  {
    if Admits(ts[i], cells[i]) {
      CellsBytesPrefix(cells, i);
    } else {
      ItemsFirstFailure(ts, cells, i);
    }
  }

  /** A type code settled by a cell is unique. */
  lemma SettledTypes(ts: seq<int>, cs: seq<Cell>, a: seq<int>, b: seq<int>)
    requires |ts| == |cs| == |a| == |b|
    requires forall j :: 0 <= j < |cs| ==> Settles(ts[j], cs[j], a[j]) && Settles(ts[j], cs[j], b[j])
    ensures a == b
  {
  }

  /**
   * `writeObjectArray`: the element count, then each element, caching in
   * `types` the type code of each position's first non-null element.
   */
  method WriteObjectArray(bytes: array<Byte>, offset: nat, types: array<int>, cells: JArray<Cell>) returns (r: Result<nat, Error>)
    requires types.Length == |cells|
    modifies bytes, types
    ensures Emitted(bytes, offset, BytesOf(ObjectArrayBytes(old(types[..]), cells)), r)
    ensures r.Success? ==> types[..] == ObjectArrayBytes(old(types[..]), cells).value.1
  {
    ghost var ts := types[..];
    ghost var b0 := bytes[..];
    var p := WriteInt(bytes, offset, |cells|);
    if p.Failure? {
      return p;
    }
    var cur := p.value;
    ItemsWrittenStart(b0, bytes[..], offset, ts, cells);
    for i := 0 to |cells|
      invariant types.Length == |cells|
      invariant ItemsWritten(b0, bytes[..], offset, ts, types[..], cells, i, cur)
    {
      ghost var mid := bytes[..];
      ghost var before := types[..];
      var q := WriteItem(bytes, cur, types, i, cells[i]);
      if q.Failure? {
        ItemFailed(ts, cells, i, offset, cur, bytes.Length, q.error);
        return q;
      }
      ItemsWrittenStep(b0, mid, bytes[..], offset, ts, before, cells, i, cur, q.value);
      cur := q.value;
    }
    ItemsWrittenEnd(b0, bytes[..], offset, ts, types[..], cells, cur);
    r := Success(cur);
  }

  // ---------------------------------------------------------------------------
  // toBinaryArray

  /** One row of `convertArrayMapRowsToBinaryArray`'s loop: the cast to ArrayMap, the length check, the value array. */
  function RowBytes(ts: seq<int>, row: Row): (r: Result<(seq<Byte>, seq<int>), Error>)
    requires |ts| < TWO_31
    ensures r.Success? <==> row.ArrayRow? && |row.values| == |ts| && ObjectArrayBytes(ts, row.values).Success?
    ensures r.Success? ==> r == ObjectArrayBytes(ts, row.values)
  {
    match row
    case HashRow => Failure(ClassCast)
    case ArrayRow(_, values) =>
      if |values| != |ts| then Failure(LengthMismatch) else ObjectArrayBytes(ts, values)
  }

  /** Bytes written before an encoding that also yields type codes. */
  function Appended(pre: seq<Byte>, r: Result<(seq<Byte>, seq<int>), Error>): Result<(seq<Byte>, seq<int>), Error>
  {
    match r
    case Success((b, t)) => Success((pre + b, t))
    case Failure(e) => Failure(e)
  }

  /**
   * A part of a larger write that fails makes the whole fail: with the
   * part's own error, or out of bounds when the whole would not fit either.
   */
  lemma FailsWithin(whole: Result<seq<Byte>, Error>, offset: nat, skipped: nat, part: Result<seq<Byte>, Error>, length: nat, e: Error)
    requires FailsAs(part, offset + skipped, length, e)
    requires part.Failure? ==> whole == Failure(part.error)
    requires whole.Success? && part.Success? ==> skipped + |part.value| <= |whole.value|
    ensures FailsAs(whole, offset, length, e)
  {
  }

  /**
   * The rows loop after i rows: the encoding of all the rows is the bytes
   * written so far followed by the encoding of the rest under the current
   * column types, and the buffer holds the bytes so far from offset up to cur.
   */
  predicate RowsWritten(b0: seq<Byte>, b: seq<Byte>, offset: nat, ts: seq<int>, rows: seq<Row>, types: seq<int>,
                        i: nat, cur: nat, done: seq<Byte>)
  {
    RowsAhead(ts, rows, types, i, done) && DoneStored(b0, b, offset, cur, done)
  }

  predicate RowsAhead(ts: seq<int>, rows: seq<Row>, types: seq<int>, i: nat, done: seq<Byte>)
  {
    |ts| == |types| < TWO_31 && i <= |rows|
    && RowsBytes(ts, rows) == Appended(done, RowsBytes(types, rows[i..]))
  }

  lemma RowsWrittenStart(b0: seq<Byte>, offset: nat, ts: seq<int>, rows: seq<Row>)
    requires |ts| < TWO_31 && offset <= |b0|
    ensures RowsWritten(b0, b0, offset, ts, rows, ts, 0, offset, [])
  {
    assert rows[0..] == rows;
    var r := RowsBytes(ts, rows);
    if r.Success? {
      assert [] + r.value.0 == r.value.0;
    }
  }

  /** The encoding of the rows from i on, one row unfolded. */
  lemma RowsBytesFrom(types: seq<int>, rows: seq<Row>, i: nat)
    requires |types| < TWO_31 && i < |rows|
    ensures RowBytes(types, rows[i]).Failure? ==> RowsBytes(types, rows[i..]) == Failure(RowBytes(types, rows[i]).error)
    ensures RowBytes(types, rows[i]).Success? ==>
      RowsBytes(types, rows[i..]) == Appended(RowBytes(types, rows[i]).value.0, RowsBytes(RowBytes(types, rows[i]).value.1, rows[i + 1..]))
  {
    assert rows[i..][0] == rows[i] && rows[i..][1..] == rows[i + 1..];
  }

  lemma RowsAheadStep(ts: seq<int>, rows: seq<Row>, types: seq<int>, i: nat, done: seq<Byte>)
    requires RowsAhead(ts, rows, types, i, done) && i < |rows| && RowBytes(types, rows[i]).Success?
    ensures RowsAhead(ts, rows, RowBytes(types, rows[i]).value.1, i + 1, done + RowBytes(types, rows[i]).value.0)
  {
    var d := RowBytes(types, rows[i]).value;
    RowsBytesFrom(types, rows, i);
    var rest := RowsBytes(d.1, rows[i + 1..]);
    if rest.Success? {
      Associative(done, d.0, rest.value.0);
    }
  }

  lemma RowsWrittenStep(b0: seq<Byte>, mid: seq<Byte>, after: seq<Byte>, offset: nat, ts: seq<int>, rows: seq<Row>,
                        types: seq<int>, i: nat, cur: nat, done: seq<Byte>, next: nat)
    requires RowsWritten(b0, mid, offset, ts, rows, types, i, cur, done) && i < |rows|
    requires RowBytes(types, rows[i]).Success?
    requires next == cur + |RowBytes(types, rows[i]).value.0| <= |mid| == |after|
    requires after == mid[..cur] + RowBytes(types, rows[i]).value.0 + mid[next..]
    ensures RowsWritten(b0, after, offset, ts, rows, RowBytes(types, rows[i]).value.1, i + 1, next,
                        done + RowBytes(types, rows[i]).value.0)
  {
    RowsAheadStep(ts, rows, types, i, done);
    DoneStoredStep(b0, mid, after, offset, cur, done, RowBytes(types, rows[i]).value.0, next);
  }

  /** A row that fails to be written makes the rows fail. */
  lemma RowFailed(ts: seq<int>, rows: seq<Row>, types: seq<int>, i: nat, offset: nat, done: seq<Byte>, length: nat, e: Error)
    requires |ts| == |types| < TWO_31 && i < |rows|
    requires RowsBytes(ts, rows) == Appended(done, RowsBytes(types, rows[i..]))
    requires FailsAs(BytesOf(RowBytes(types, rows[i])), offset + |done|, length, e)
    ensures FailsAs(BytesOf(RowsBytes(ts, rows)), offset, length, e)
  {
    RowsBytesFrom(types, rows, i);
    FailsWithin(BytesOf(RowsBytes(ts, rows)), offset, |done|, BytesOf(RowBytes(types, rows[i])), length, e);
  }

  lemma RowsWrittenEnd(b0: seq<Byte>, b: seq<Byte>, offset: nat, ts: seq<int>, rows: seq<Row>, types: seq<int>, cur: nat, done: seq<Byte>)
    requires RowsWritten(b0, b, offset, ts, rows, types, |rows|, cur, done)
    ensures RowsBytes(ts, rows) == Success((done, types))
    ensures b == b0[..offset] + done + b0[cur..]
  {
    assert rows[|rows|..] == [];
    assert done + [] == done;
  }


  lemma {:induction false} TypeBytesAppend(a: seq<int>, b: seq<int>)
    ensures TypeBytes(a + b) == TypeBytes(a) + TypeBytes(b)
    decreases |a|
  {
    if a == [] {
      assert a + b == b;
    } else {
      assert (a + b)[0] == a[0] && (a + b)[1..] == a[1..] + b;
      TypeBytesAppend(a[1..], b);
    }
  }

  /** The back-patching loop after one more type byte. */
  lemma PatchStep(b2: seq<Byte>, before: seq<Byte>, after: seq<Byte>, at: nat, ts: seq<int>, j: nat)
    requires j < |ts| && at + |ts| <= |b2|
    requires before == b2[..at] + TypeBytes(ts[..j]) + b2[at + j..]
    requires after == before[at + j := LowByte(ts[j])]
    ensures after == b2[..at] + TypeBytes(ts[..j + 1]) + b2[at + j + 1..]
  {
    assert ts[..j + 1] == ts[..j] + [ts[j]];
    TypeBytesAppend(ts[..j], [ts[j]]);
    assert TypeBytes([ts[j]]) == [LowByte(ts[j])] + TypeBytes([]);
    assert b2[at + j..] == [b2[at + j]] + b2[at + j + 1..];
  }

  /** The type bytes patched into the gap before the rows: both stored from the gap on. */
  lemma Patched(b1: seq<Byte>, b2: seq<Byte>, b3: seq<Byte>, gap: nat, start: nat, cur: nat, typeBytes: seq<Byte>, image: seq<Byte>)
    requires start == gap + |typeBytes| && cur == start + |image| <= |b1|
    requires b2 == b1[..start] + image + b1[cur..]
    requires b3 == b2[..gap] + typeBytes + b2[start..]
    ensures b3 == b1[..gap] + (typeBytes + image) + b1[cur..]
  {
    assert b2[..gap] == b1[..gap];
    assert b2[start..] == image + b1[cur..];
  }

  /** The body is the keys, then what follows them. */
  lemma ArrayRowsBytesThen(rows: seq<Row>)
    requires rows != [] && rows[0].ArrayRow? && |rows| < TWO_31
    ensures KeyArrayBytes(rows[0].keys).Failure? ==> ArrayRowsBytes(rows) == Failure(KeyArrayBytes(rows[0].keys).error)
    ensures KeyArrayBytes(rows[0].keys).Success? && TypesThenRows(Unset(|rows[0].keys|), rows).Failure? ==>
      ArrayRowsBytes(rows) == Failure(TypesThenRows(Unset(|rows[0].keys|), rows).error)
    ensures KeyArrayBytes(rows[0].keys).Success? && TypesThenRows(Unset(|rows[0].keys|), rows).Success? ==>
      ArrayRowsBytes(rows) == Success(KeyArrayBytes(rows[0].keys).value + TypesThenRows(Unset(|rows[0].keys|), rows).value)
  {
    var v := RowsBytes(Unset(|rows[0].keys|), rows);
    if KeyArrayBytes(rows[0].keys).Success? && v.Success? {
      Associative(KeyArrayBytes(rows[0].keys).value, TypeBytes(v.value.1), v.value.0);
    }
  }


  /**
   * One pass of the rows loop: the cast to ArrayMap, the check that the row
   * has n values, and its value array under the shared column types.
   */
  method WriteRow(bytes: array<Byte>, offset: nat, types: array<int>, row: Row) returns (r: Result<nat, Error>)
    requires types.Length < TWO_31
    modifies bytes, types
    ensures Emitted(bytes, offset, BytesOf(RowBytes(old(types[..]), row)), r)
    ensures r.Success? ==> types[..] == RowBytes(old(types[..]), row).value.1
    ensures row.HashRow? ==> r == Failure(ClassCast)
    ensures row.ArrayRow? && |row.values| != types.Length ==> r == Failure(LengthMismatch)
  {
    if row.HashRow? {
      return Failure(ClassCast);
    }
    if |row.values| != types.Length {
      return Failure(LengthMismatch);
    }
    r := WriteObjectArray(bytes, offset, types, row.values);
  }

  /** `new int[n]` filled with -1. */
  method NewTypes(n: nat) returns (types: array<int>)
    ensures fresh(types) && types[..] == Unset(n)
  {
    types := new int[n](_ => UNSET);
    assert types[..] == Unset(n);
  }

  /** The closing loop of `convertArrayMapRowsToBinaryArray`: each column type as a byte, into the gap reserved at `at`. */
  method WriteTypes(bytes: array<Byte>, at: nat, types: array<int>)
    requires at + types.Length <= bytes.Length
    modifies bytes
    ensures bytes[..] == old(bytes[..at]) + TypeBytes(types[..]) + old(bytes[at + types.Length..])
  {
    ghost var b := bytes[..];
    for j := 0 to types.Length
      invariant bytes[..] == b[..at] + TypeBytes(types[..j]) + b[at + j..]
    {
      ghost var before := bytes[..];
      bytes[at + j] := LowByte(types[j]);   // writeByte(bytes, valueTypeOffset, (byte) valueType)
      PatchStep(b, before, bytes[..], at, types[..], j);
    }
    assert types[..types.Length] == types[..];
  }

  /** The rows loop of `convertArrayMapRowsToBinaryArray`: each row in turn, sharing the column types. */
  method WriteRows(bytes: array<Byte>, offset: nat, types: array<int>, rows: seq<Row>) returns (r: Result<nat, Error>)
    requires offset <= bytes.Length && types.Length < TWO_31
    modifies bytes, types
    ensures Emitted(bytes, offset, BytesOf(RowsBytes(old(types[..]), rows)), r)
    ensures r.Success? ==> types[..] == RowsBytes(old(types[..]), rows).value.1
    ensures FirstRowError(types.Length, rows).Some? ==> r == Failure(FirstRowError(types.Length, rows).value)
  {
    ghost var ts := types[..];
    ghost var b0 := bytes[..];
    ghost var done: seq<Byte> := [];
    var cur := offset;
    RowsWrittenStart(b0, offset, ts, rows);
    for i := 0 to |rows|
      invariant types.Length == |ts|
      invariant RowsWritten(b0, bytes[..], offset, ts, rows, types[..], i, cur, done)
      invariant i > 0 ==> FirstRowError(|ts|, rows).None?
    {
      ghost var mid := bytes[..];
      ghost var before := types[..];
      var q := WriteRow(bytes, cur, types, rows[i]);
      if q.Failure? {
        RowFailed(ts, rows, before, i, offset, done, bytes.Length, q.error);
        return q;
      }
      RowsWrittenStep(b0, mid, bytes[..], offset, ts, rows, before, i, cur, done, q.value);
      done := done + RowBytes(before, rows[i]).value.0;
      cur := q.value;
    }
    RowsWrittenEnd(b0, bytes[..], offset, ts, rows, types[..], cur, done);
    r := Success(cur);
  }

  /** What follows the keys: the column types as the rows leave them, then the rows. */
  function TypesThenRows(ts: seq<int>, rows: seq<Row>): (r: Result<seq<Byte>, Error>)
    requires |ts| < TWO_31
  {
    var v :- RowsBytes(ts, rows);
    Success(TypeBytes(v.1) + v.0)
  }

  /**
   * The error the first row's own checks raise before any of its bytes are
   * written: the cast to ArrayMap and the width check against n columns.
   */
  function FirstRowError(n: nat, rows: seq<Row>): Option<Error>
  {
    if rows == [] then None
    else match rows[0]
      case HashRow => Some(ClassCast)
      case ArrayRow(_, values) => if |values| != n then Some(LengthMismatch) else None
  }

  /** Such an error is the error of the whole rows encoding. */
  lemma FirstRowErrorIsRowsError(ts: seq<int>, rows: seq<Row>)
    requires |ts| < TWO_31 && FirstRowError(|ts|, rows).Some?
    ensures RowsBytes(ts, rows) == Failure(FirstRowError(|ts|, rows).value)
  {
  }

  /**
   * `convertArrayMapRowsToBinaryArray` after the keys: a gap of one byte per
   * column, each row's values, and finally the column types written into the gap.
   * The gap starts where the key array ended, inside the buffer.
   */
  method WriteRowsAndTypes(bytes: array<Byte>, gap: nat, types: array<int>, rows: seq<Row>) returns (r: Result<nat, Error>)
    requires types.Length < TWO_31 && gap <= bytes.Length
    modifies bytes, types
    ensures Emitted(bytes, gap, TypesThenRows(old(types[..]), rows), r)
    ensures FirstRowError(types.Length, rows).Some? ==> r == Failure(FirstRowError(types.Length, rows).value)
  {
    ghost var ts := types[..];
    var start := gap + types.Length;
    if start > bytes.Length {
      // skipping the gap stores nothing: the zero row's checks come first,
      // then its writeInt (or, with no rows, the first type byte) is past the end
      if rows != [] && rows[0].HashRow? {
        FirstRowErrorIsRowsError(ts, rows);
        return Failure(ClassCast);
      }
      if rows != [] && |rows[0].values| != types.Length {
        FirstRowErrorIsRowsError(ts, rows);
        return Failure(LengthMismatch);
      }
      return Failure(OutOfBounds);
    }
    ghost var b1 := bytes[..];
    var q := WriteRows(bytes, start, types, rows);
    if q.Failure? {
      FailsWithin(TypesThenRows(ts, rows), gap, types.Length, BytesOf(RowsBytes(ts, rows)), bytes.Length, q.error);
      return q;
    }
    ghost var image, fin := RowsBytes(ts, rows).value.0, RowsBytes(ts, rows).value.1;
    assert BytesOf(RowsBytes(ts, rows)) == Success(image) && types[..] == fin;
    assert TypesThenRows(ts, rows) == Success(TypeBytes(fin) + image);
    ghost var b2 := bytes[..];
    WriteTypes(bytes, gap, types);
    Patched(b1, b2, bytes[..], gap, start, q.value, TypeBytes(fin), image);
    r := q;
  }

  /** The zero row's key array, written with fresh (unset) key types. */
  function KeyArrayBytes(keys: JArray<Key>): Result<seq<Byte>, Error>
  {
    BytesOf(ObjectArrayBytes(Unset(|keys|), KeyCells(keys)))
  }

  /** `keyTypes` filled with -1, then `writeObjectArray(bytes, offset, keyTypes, map.keys)`. */
  method WriteKeys(bytes: array<Byte>, offset: nat, keys: JArray<Key>) returns (r: Result<nat, Error>)
    modifies bytes
    ensures Emitted(bytes, offset, KeyArrayBytes(keys), r)
  {
    var keyTypes := NewTypes(|keys|);
    r := WriteObjectArray(bytes, offset, keyTypes, KeyCells(keys));
  }

  /** `convertArrayMapRowsToBinaryArray`: the zero row's keys, then the column types and the rows. */
  method ConvertArrayRows(bytes: array<Byte>, offset: nat, rows: seq<Row>) returns (r: Result<nat, Error>)
    requires |rows| < TWO_31 && rows != [] && rows[0].ArrayRow?
    modifies bytes
    ensures Emitted(bytes, offset, ArrayRowsBytes(rows), r)
    ensures (KeyArrayBytes(rows[0].keys).Success? && offset + |KeyArrayBytes(rows[0].keys).value| <= bytes.Length &&
             |rows[0].values| != |rows[0].keys|) ==> r == Failure(LengthMismatch)
  {
    var keys := rows[0].keys;
    ghost var b0 := bytes[..];
    var p := WriteKeys(bytes, offset, keys);
    if p.Failure? {
      ArrayRowsBytesThen(rows);
      FailsWithin(ArrayRowsBytes(rows), offset, 0, KeyArrayBytes(keys), bytes.Length, p.error);
      return p;
    }
    ghost var b1 := bytes[..];
    var valueTypes := NewTypes(|keys|);
    r := WriteRowsAndTypes(bytes, p.value, valueTypes, rows);
    ArrayRowsBytesThen(rows);
    if r.Failure? {
      FailsWithin(ArrayRowsBytes(rows), offset, |KeyArrayBytes(keys).value|, TypesThenRows(Unset(|keys|), rows), bytes.Length, r.error);
    } else {
      StoredThen(b0, b1, bytes[..], offset, p.value, r.value, KeyArrayBytes(keys).value, TypesThenRows(Unset(|keys|), rows).value);
    }
  }

  /**
   * `toBinaryArray`: the header string, the row count, and for a non-empty
   * list the zero row's delegate tag and body. A HashMap body goes through
   * Java serialization, which is not modelled: after its tag the write fails.
   */
  method ToBinaryArray(bytes: array<Byte>, offset: nat, rows: seq<Row>) returns (r: Result<nat, Error>)
    requires |rows| < TWO_31
    modifies bytes
    ensures Emitted(bytes, offset, EncodeRows(rows), r)
    ensures (rows != [] && rows[0].ArrayRow? && |rows[0].values| != |rows[0].keys| &&
             KeyArrayBytes(rows[0].keys).Success? &&
             offset + |StringBytes(ROWS)| + 5 + |KeyArrayBytes(rows[0].keys).value| <= bytes.Length) ==> r == Failure(LengthMismatch)
  {
    ghost var b0 := bytes[..];
    ghost var header := StringBytes(ROWS) + IntBytes(|rows|);
    var p := WriteString(bytes, offset, ROWS);
    if p.Failure? {
      FailsWithin(EncodeRows(rows), offset, 0, Success(StringBytes(ROWS)), bytes.Length, p.error);
      return p;
    }
    ghost var b1 := bytes[..];
    var q := WriteInt(bytes, p.value, |rows|);
    if q.Failure? {
      FailsWithin(EncodeRows(rows), offset, |StringBytes(ROWS)|, Success(IntBytes(|rows|)), bytes.Length, q.error);
      return q;
    }
    StoredThen(b0, b1, bytes[..], offset, p.value, q.value, StringBytes(ROWS), IntBytes(|rows|));
    if rows == [] {
      return q;
    }
    ghost var b2 := bytes[..];
    if rows[0].HashRow? {
      var h := WriteByte(bytes, q.value, HASH_ROWS);
      if h.Failure? {
        return h;
      }
      return Failure(SerializedForm);
    }
    var a := WriteByte(bytes, q.value, ARRAY_ROWS);
    if a.Failure? {
      FailsWithin(EncodeRows(rows), offset, |header|, Success([LowByte(ARRAY_ROWS)]), bytes.Length, a.error);
      return a;
    }
    StoredThen(b0, b2, bytes[..], offset, q.value, a.value, header, [LowByte(ARRAY_ROWS)]);
    ghost var b3 := bytes[..];
    r := ConvertArrayRows(bytes, a.value, rows);
    if r.Failure? {
      FailsWithin(EncodeRows(rows), offset, |header| + 1, ArrayRowsBytes(rows), bytes.Length, r.error);
    } else {
      StoredThen(b0, b3, bytes[..], offset, a.value, r.value, header + [LowByte(ARRAY_ROWS)], ArrayRowsBytes(rows).value);
    }
  }
}

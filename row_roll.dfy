/**
 * RowRoll: a columnar batch of rows that share one key array. Each row is an
 * array of cells in key order; the batch caches the keys' hash codes and a
 * 64-bit fingerprint of the key list (`type`) that gates concatenation.
 */
module RowRolls {
  import opened Wrappers
  import opened JavaInts
  import opened ArrayMaps

  /** Java's `String.hashCode()`: `h = 31 * h + c` over the characters, in int arithmetic. */
  function JavaHash(s: string): int32
  {
    if s == [] then 0 else Wrap32(31 * JavaHash(s[..|s| - 1]) + s[|s| - 1] as int)
  }

  /**
   * One round of `calculateType` for a key of the given length and hash, with
   * the wrap-around of Java long arithmetic after each statement.
   */
  function TypeStep(t: int64, length: nat, hash: int32): int64
  {
    Wrap64(Wrap64(t * 1009 + length) * 2339 + hash)
  }

  /** The fingerprint of a key list: TypeStep folded over the keys from the left, starting at 0. */
  function TypeOf(keys: seq<string>): int64
  {
    if keys == [] then 0 else TypeStep(TypeOf(keys[..|keys| - 1]), |keys[|keys| - 1]|, JavaHash(keys[|keys| - 1]))
  }

  /** The same fold over unbounded integers: the value the fingerprint would have without overflow. */
  function ExactType(keys: seq<string>): int
  {
    if keys == [] then 0
    else (ExactType(keys[..|keys| - 1]) * 1009 + |keys[|keys| - 1]|) * 2339 + JavaHash(keys[|keys| - 1])
  }

  /** Numbers that differ by a multiple of 2^64 wrap to the same long. */
  lemma SameWrap(z: int, k: int)
    ensures Wrap64(z + k * TWO_64) == Wrap64(z)
  {
    assert (z + k * TWO_64) % TWO_64 == z % TWO_64;
  }

  /** Wrapping the operand of `x * a + b` early does not change the wrapped result. */
  lemma WrapAffine(x: int, a: int, b: int)
    ensures Wrap64(Wrap64(x) * a + b) == Wrap64(x * a + b)
  {
    var w := Wrap64(x);
    var k := (w - x) / TWO_64;
    assert w == x + k * TWO_64;
    assert w * a + b == x * a + b + (k * a) * TWO_64;
    SameWrap(x * a + b, k * a);
  }

  /** One round on a wrapped accumulator is the wrapped round on the exact one. */
  lemma TypeStepExact(e: int, length: nat, hash: int32)
    ensures TypeStep(Wrap64(e), length, hash) == Wrap64((e * 1009 + length) * 2339 + hash)
  {
    var inner := e * 1009 + length;
    WrapAffine(e, 1009, length);
    WrapAffine(inner, 2339, hash);
  }

  /**
   * The fingerprint computed with wrap-around after every statement is the
   * exact polynomial reduced to a long: the early wrapping loses nothing.
   */
  lemma {:induction false} TypeIsExactModulo(keys: seq<string>)
    ensures TypeOf(keys) == Wrap64(ExactType(keys))
  {
    if keys == [] {
      assert Wrap64(0) == 0;
    } else {
      var init, last := keys[..|keys| - 1], keys[|keys| - 1];
      TypeIsExactModulo(init);
      TypeStepExact(ExactType(init), |last|, JavaHash(last));
    }
  }

  /** `row.get(key)` seen as a cell: null both for a missing key and for a key stored with null. */
  function Flatten<V>(o: Option<Option<V>>): Option<V>
  {
    match o
    case None => None
    case Some(c) => c
  }

  /** The cells `addRow` stores for a row: for each key, in order, the row's value under that key. */
  function RowCells<V>(keys: seq<string>, rowKeys: seq<string>, rowVals: seq<Option<V>>): seq<Option<V>>
    requires |rowKeys| == |rowVals|
  {
    seq(|keys|, i requires 0 <= i < |keys| => Flatten(Lookup(rowKeys, rowVals, keys[i])))
  }

  /**
   * A row read under its own (distinct) keys, in their order, is stored as its
   * values: nothing is lost or moved when the roll takes its keys from the row.
   */
  lemma RowCellsOfOwnKeys<V>(rowKeys: seq<string>, rowVals: seq<Option<V>>)
    requires |rowKeys| == |rowVals| && Distinct(rowKeys)
    ensures RowCells(rowKeys, rowKeys, rowVals) == rowVals
  {
    forall i | 0 <= i < |rowKeys|
      ensures RowCells(rowKeys, rowKeys, rowVals)[i] == rowVals[i]
    {
      IndexOfDistinct(rowKeys, i);
    }
  }

  datatype RollError =
    | NullPointer                                     // a dereference of keys or valuesList while it is null
    | IllegalValuesSize(valuesLength: nat, keysLength: nat)
    | IllegalIndex(index: int, size: nat)             // getRow outside [0, size)
    | Incompatible                                    // add: the fingerprints differ
    | OutOfRange                                      // getValue outside a row or the list
    | WidthMismatch                                   // getRow: a row whose width is not keys.length

  class RowRoll<V(==)> {
    var typ: int64
    var keys: array?<string>
    var keyHashCodes: array?<int32>
    /** The `ArrayList<Object[]>` of rows; None while it is still null. */
    var valuesList: Option<seq<seq<Option<V>>>>

    /** Once keys are set, the cached hashes and the fingerprint are those of the keys; before, type is 0. */
    ghost predicate Valid()
      reads this, keys, keyHashCodes
    {
      && (keys == null ==> typ == 0)
      && (keys != null ==>
            && keyHashCodes != null
            && keyHashCodes.Length == keys.Length
            && (forall i :: 0 <= i < keys.Length ==> keyHashCodes[i] == JavaHash(keys[i]))
            && typ == TypeOf(keys[..]))
    }

    /** The rows, in the order they were appended (none while the list is null). */
    ghost function Rows(): seq<seq<Option<V>>>
      reads this
    {
      if valuesList.None? then [] else valuesList.value
    }

    constructor ()
      ensures Valid() && keys == null && valuesList == None && Rows() == []
    {
      typ := 0;
      keys := null;
      keyHashCodes := null;
      valuesList := None;
    }

    /** `setKeys`: adopt the key array, then cache its hashes and fingerprint. Rows are kept. */
    method SetKeys(ks: array<string>)
      modifies this
      ensures Valid() && keys == ks && valuesList == old(valuesList)
      ensures typ == TypeOf(ks[..])
    {
      keys := ks;
      InitializeKeyHashCodesAndType();
    }

    /** `initializeKeyHashCodesAndType`: a fresh hash array for the current keys, then the fingerprint. */
    method InitializeKeyHashCodesAndType()
      requires keys != null
      modifies this
      ensures Valid() && keys == old(keys) && valuesList == old(valuesList) && fresh(keyHashCodes)
    {
      var ks := keys;
      var codes := new int32[ks.Length];
      for i := 0 to ks.Length
        modifies codes
        invariant forall j :: 0 <= j < i ==> codes[j] == JavaHash(ks[j])
      {
        codes[i] := JavaHash(ks[i]);
      }
      keyHashCodes := codes;
      typ := CalculateType();
    }

    /** `calculateType`: the fingerprint of the keys, from the cached hashes. */
    method CalculateType() returns (t: int64)
      requires keys != null && keyHashCodes != null && keyHashCodes.Length == keys.Length
      requires forall i :: 0 <= i < keys.Length ==> keyHashCodes[i] == JavaHash(keys[i])
      ensures t == TypeOf(keys[..])
    {
      t := 0;
      for i := 0 to keys.Length
        invariant t == TypeOf(keys[..i])
      {
        ghost var prev := t;
        assert keys[..i + 1][..i] == keys[..i];
        assert TypeOf(keys[..i + 1]) == TypeStep(prev, |keys[i]|, JavaHash(keys[i]));
        t := Wrap64(t * 1009 + |keys[i]|);
        t := Wrap64(t * 2339 + keyHashCodes[i] as int);
        assert t == TypeStep(prev, |keys[i]|, keyHashCodes[i]);
      }
      assert keys[..keys.Length] == keys[..];
    }

    /**
     * `addRow`: with no keys yet, take them from the row in its key order;
     * then append the row's value under each key (null where it has none).
     */
    method AddRow(row: ArrayMap<string, Option<V>>)
      requires Valid() && row.Valid()
      modifies this
      ensures Valid()
      ensures old(keys) != null ==> keys == old(keys) && typ == old(typ) && keyHashCodes == old(keyHashCodes)
      ensures old(keys) == null ==> fresh(keys) && keys[..] == row.Keys()
      ensures keys != null && Rows() == old(Rows()) + [RowCells(keys[..], row.Keys(), row.Vals())]
    {
      if keys == null {
        keys := KeysInOrder(row);
        InitializeKeyHashCodesAndType();
      }
      var values := CellsOf(row, keys);
      if valuesList.None? {
        valuesList := Some([]);
      }
      valuesList := Some(valuesList.value + [values[..]]);
    }

    /** The new key array of `addRow`: the row's keys in its key-set order. */
    static method KeysInOrder(row: ArrayMap<string, Option<V>>) returns (ks: array<string>)
      requires row.Valid()
      ensures fresh(ks) && ks[..] == row.Keys()
    {
      ks := new string[row.size];
      for i := 0 to row.size
        invariant forall j :: 0 <= j < i ==> ks[j] == row.keys[j]
      {
        ks[i] := row.keys[i];
      }
    }

    /** The new cell array of `addRow`: `row.get(keys[i])` for each i. */
    static method CellsOf(row: ArrayMap<string, Option<V>>, ks: array<string>) returns (values: array<Option<V>>)
      requires row.Valid()
      ensures fresh(values) && values[..] == RowCells(ks[..], row.Keys(), row.Vals())
    {
      ghost var cells := RowCells(ks[..], row.Keys(), row.Vals());
      values := new Option<V>[ks.Length];
      for i := 0 to ks.Length
        invariant forall j :: 0 <= j < i ==> values[j] == cells[j]
      {
        var v := row.Get(ks[i]);
        values[i] := Flatten(v);
      }
    }

    /** `addValues`: append a row given as its cells; the width must be the number of keys. */
    method AddValues(values: seq<Option<V>>) returns (r: Result<(), RollError>)
      modifies this
      ensures keys == old(keys) && typ == old(typ) && keyHashCodes == old(keyHashCodes)
      ensures keys == null ==> r == Failure(NullPointer) && Rows() == old(Rows())
      ensures keys != null && |values| != keys.Length ==>
                r == Failure(IllegalValuesSize(|values|, keys.Length)) && Rows() == old(Rows())
      ensures keys != null && |values| == keys.Length ==> r == Success(()) && Rows() == old(Rows()) + [values]
    {
      if keys == null {
        return Failure(NullPointer);
      }
      if |values| != keys.Length {
        return Failure(IllegalValuesSize(|values|, keys.Length));
      }
      if valuesList.None? {
        valuesList := Some([]);
      }
      valuesList := Some(valuesList.value + [values]);
      r := Success(());
    }

    /**
     * `getRow`: the index-th row as a map that shares the roll's key and hash
     * arrays and holds the row's cells, every slot an entry.
     */
    method GetRow(index: int) returns (r: Result<ArrayMap<string, Option<V>>, RollError>)
      requires Valid()
      ensures valuesList.None? ==> r == Failure(NullPointer)
      ensures valuesList.Some? && !(0 <= index < |Rows()|) ==> r == Failure(IllegalIndex(index, |Rows()|))
      ensures 0 <= index < |Rows()| && keys == null ==> r == Failure(NullPointer)
      ensures 0 <= index < |Rows()| && keys != null && |Rows()[index]| != keys.Length ==> r == Failure(WidthMismatch)
      ensures valuesList.Some? && 0 <= index < |Rows()| && keys != null && |Rows()[index]| == keys.Length ==> r.Success?
      ensures r.Success? ==>
                && 0 <= index < |Rows()| && keys != null
                && r.value.Valid() && fresh(r.value.values)
                && r.value.keys == keys && r.value.hashCodes == keyHashCodes && r.value.hash == JavaHash
                && r.value.Keys() == keys[..] && r.value.Vals() == Rows()[index]
    {
      if valuesList.None? {
        return Failure(NullPointer);
      }
      if index < 0 || index >= |valuesList.value| {
        return Failure(IllegalIndex(index, |valuesList.value|));
      }
      if keys == null {
        return Failure(NullPointer);
      }
      var row := valuesList.value[index];
      if |row| != keys.Length {
        return Failure(WidthMismatch);
      }
      var values := new Option<V>[|row|](i requires 0 <= i < |row| => row[i]);
      assert values[..] == row;
      var map_ := new ArrayMap.Sharing(keys, keyHashCodes, values, JavaHash);
      r := Success(map_);
    }

    /** `isEmpty`: no row has been appended. */
    function IsEmpty(): (b: bool)
      reads this
      ensures b <==> Rows() == []
    {
      valuesList.None? || valuesList.value == []
    }

    /** `size`: the number of rows appended. */
    function Size(): (n: nat)
      reads this
      ensures n == |Rows()|
    {
      if valuesList.None? then 0 else |valuesList.value|
    }

    /**
     * `add`: append another roll's rows after this one's, provided their
     * fingerprints agree. A roll without keys or without rows adds nothing.
     */
    method Add(other: RowRoll<V>) returns (r: Result<(), RollError>)
      modifies this
      ensures keys == old(keys) && typ == old(typ) && keyHashCodes == old(keyHashCodes)
      ensures old(other.keys) == null ==> r == Success(()) && Rows() == old(Rows())
      ensures old(other.keys) != null && typ != old(other.typ) ==> r == Failure(Incompatible) && Rows() == old(Rows())
      ensures old(other.keys) != null && typ == old(other.typ) ==>
                r == Success(()) && Rows() == old(Rows()) + old(other.Rows())
    {
      if other.keys == null {
        return Success(());
      }
      if typ != other.typ {
        return Failure(Incompatible);
      }
      if other.valuesList.None? || other.valuesList.value == [] {
        return Success(());
      }
      if valuesList.None? {
        valuesList := other.valuesList;
      } else {
        valuesList := Some(valuesList.value + other.valuesList.value);
      }
      r := Success(());
    }

    /** `getColumnCount`: the number of keys, 0 while they are unset. */
    function GetColumnCount(): (n: nat)
      reads this
      ensures keys == null ==> n == 0
      ensures keys != null ==> n == keys.Length
    {
      if keys == null then 0 else keys.Length
    }

    /**
     * `getColumn`: the first column whose key equals `key`, found by comparing
     * cached hashes before the strings; -1 when keys are unset, the key is
     * null or no column has it.
     */
    method GetColumn(key: Option<string>) returns (c: int)
      requires Valid()
      ensures keys == null || key.None? ==> c == -1
      ensures keys != null && key.Some? && key.value !in keys[..] ==> c == -1
      ensures keys != null && key.Some? && key.value in keys[..] ==>
                0 <= c < keys.Length && keys[c] == key.value && key.value !in keys[..c]
    {
      if keys == null || key.None? {
        return -1;
      }
      var keyHashCode := JavaHash(key.value);
      for i := 0 to keys.Length
        invariant key.value !in keys[..i]
      {
        if keyHashCode == keyHashCodes[i] && key.value == keys[i] {
          return i;
        }
      }
      assert keys[..keys.Length] == keys[..];
      return -1;
    }

    /** `getValue`: null for column -1, otherwise the cell at that row and column. */
    function GetValue(index: int, column: int): (r: Result<Option<V>, RollError>)
      reads this
      ensures column == -1 ==> r == Success(None)
      ensures column != -1 && valuesList.None? ==> r == Failure(NullPointer)
      ensures column != -1 && valuesList.Some? ==>
                (r.Success? <==> 0 <= index < |Rows()| && 0 <= column < |Rows()[index]|)
      ensures column != -1 && r.Success? ==> r.value == Rows()[index][column]
    {
      if column == -1 then Success(None)
      else if valuesList.None? then Failure(NullPointer)
      else if !(0 <= index < |valuesList.value|) then Failure(OutOfRange)
      else if !(0 <= column < |valuesList.value[index]|) then Failure(OutOfRange)
      else Success(valuesList.value[index][column])
    }
  }

  /**
   * A roll that takes its keys from its first row stores that row's values in
   * order, when the row's keys are distinct (as `put` keeps them).
   */
  method FirstRowKept<V(==)>(row: ArrayMap<string, Option<V>>) returns (roll: RowRoll<V>)
    requires row.Valid() && Distinct(row.Keys())
    ensures roll.Valid() && roll.keys != null && roll.keys[..] == row.Keys()
    ensures roll.Rows() == [row.Vals()]
    ensures roll.typ == TypeOf(row.Keys())
  {
    roll := new RowRoll();
    roll.AddRow(row);
    RowCellsOfOwnKeys(row.Keys(), row.Vals());
  }
}

# jacuzzi core, modelled in Dafny

jacuzzi is a small Java data-access library. This project models its core and proves properties of the model:

- **ArrayMap** (`ArrayMaps`): a fixed-capacity `Map` kept in insertion order. It stores keys, their cached hash codes and values in three parallel arrays and searches them by linear scan. The class in `array_map.dfy` updates those arrays in place. It is proved against functions on the sequences `keys[0..size)` and `values[0..size)`. The older copy of the class, `trunk/code/src/main/java/org/jacuzzi/core/ArrayMap.java`, has the same map operations. Its constructors are at lines 21-39, the operations from containsKey to clear at 52-128, and the entry iterator at 248-270. The same members model both copies, and the table cites the newer one.
- **The binary row codec** of ArrayMap (`toBinaryArray` / `fromBinaryArray` and the byte helpers). A list of rows is written into a caller's `byte[]`:
  - the header "ROWS", then the row count;
  - the tag 'A', then the first row's key array;
  - one type byte per column;
  - then each row's value array.
  The byte layout is given as functions of the bytes (`ByteArrayUtil`, `ObjectArrays`, `RowsFormat`). The writers (`RowsCodec`) and readers (`RowsDecoder`) are methods over arrays with an offset, proved against those functions. The main theorem is `RowsFormat.EncodeDecode`: the bytes an encodable list is written as read back as the same rows.
- **RowRoll** (`RowRolls`): a columnar batch of rows that share one key array. It keeps a 64-bit fingerprint of its keys (`type`), computed with Java's `long` wrap-around, and refuses to concatenate with a batch whose fingerprint differs.
- **Query.format** (`Queries`): substitutes arguments for the `?f` and `?t` jokers of an SQL template. There are two versions. In the newer one, two quotation flags decide whether an argument is wrapped in backquotes. The older one always wraps.
- **ReflectionUtil's accessor names** (`AccessorNames`): the setter, getter and boolean-getter name built from a field name, and the field name that `findFields` reads off a method name.

The header is the length-prefixed string "ROWS": 4 length bytes and then 4 characters. That is what `ArrayMap.java:286` writes. A row is written from its delegate map's whole key and value arrays (`ArrayMap.java:323`, `:327`), not just the live slots. So a map whose size is below its capacity is written with its unused slots too. Those slots hold null keys, which `RowsFormat.NullKeyRejected` covers, or stale entries left by remove or clear.

Java's `int`, `long` and `byte` are integer subset types (`int32`, `int64`, `int8`). A `byte[]` element is its unsigned view (`Byte`). Overflow is written out explicitly (`Wrap32`, `Wrap64`) where the source relies on it. An exception the source throws becomes a `Failure` of a `Result`.

## Model

| member | source | states |
|---|---|---|
| JavaInts.IntRoundTrip | code/src/main/java/org/jacuzzi/core/ArrayMap.java:514-520 | reading back the four little-endian bytes `writeInt` emits gives the same int |
| JavaInts.IntBytesOf | code/src/main/java/org/jacuzzi/core/ArrayMap.java:555-565 | any four bytes are the encoding of the int `readInt` assembles from them: the int codec is a bijection |
| JavaInts.LongRoundTrip | code/src/main/java/org/jacuzzi/core/ArrayMap.java:522-528 | reading back the eight little-endian bytes `writeLong` emits gives the same long |
| JavaInts.Wrap32 | code/src/main/java/org/jacuzzi/core/RowRoll.java:58 | the int an arithmetic result wraps to differs from it by a multiple of 2^32 |
| JavaInts.Wrap64 | code/src/main/java/org/jacuzzi/core/RowRoll.java:26-27 | the long an arithmetic result wraps to differs from it by a multiple of 2^64 |
| ByteArrayUtil.WriteLittleEndian | code/src/main/java/org/jacuzzi/core/ArrayMap.java:514-528 | the shift-and-mask loop stores the w little-endian bytes of the number at the offset, changes nothing else and returns the offset after them; it fails with OutOfBounds when they do not fit |
| ByteArrayUtil.ReadLittleEndian | code/src/main/java/org/jacuzzi/core/ArrayMap.java:555-577 | the loop that ORs in the unsigned bytes yields the little-endian value of the w bytes at the offset and advances past them, or OutOfBounds |
| ByteArrayUtil.WriteByte | code/src/main/java/org/jacuzzi/core/ArrayMap.java:509-512 | stores the byte at the offset and returns offset + 1; nothing else changes |
| ByteArrayUtil.WriteInt | code/src/main/java/org/jacuzzi/core/ArrayMap.java:514-520 | stores the int's four little-endian bytes; nothing else changes |
| ByteArrayUtil.WriteLong | code/src/main/java/org/jacuzzi/core/ArrayMap.java:522-528 | stores the long's eight little-endian bytes; nothing else changes |
| ByteArrayUtil.WriteDouble | code/src/main/java/org/jacuzzi/core/ArrayMap.java:530-532 | stores the double's raw bit pattern as a long |
| ByteArrayUtil.WriteBoolean | code/src/main/java/org/jacuzzi/core/ArrayMap.java:534-537 | stores 1 for true and 0 for false |
| ByteArrayUtil.WriteString | code/src/main/java/org/jacuzzi/core/ArrayMap.java:539-545 | stores the byte length as an int, then the bytes |
| ByteArrayUtil.WriteDate | code/src/main/java/org/jacuzzi/core/ArrayMap.java:547-549 | stores the epoch milliseconds as a long |
| ByteArrayUtil.ReadByte | code/src/main/java/org/jacuzzi/core/ArrayMap.java:551-553 | reads the byte at the offset as a signed Java byte and advances by one, or OutOfBounds |
| ByteArrayUtil.ReadInt | code/src/main/java/org/jacuzzi/core/ArrayMap.java:555-565 | reads four bytes as a little-endian int and advances by four |
| ByteArrayUtil.ReadLong | code/src/main/java/org/jacuzzi/core/ArrayMap.java:567-577 | reads eight bytes as a little-endian long and advances by eight |
| ByteArrayUtil.ReadDouble | code/src/main/java/org/jacuzzi/core/ArrayMap.java:579-581 | reads the double's bit pattern as a long |
| ByteArrayUtil.ReadBoolean | code/src/main/java/org/jacuzzi/core/ArrayMap.java:583-585 | any non-zero byte reads as true |
| ByteArrayUtil.ReadString | code/src/main/java/org/jacuzzi/core/ArrayMap.java:587-598 | a length of Integer.MIN_VALUE reads as null; any other negative length fails with NegativeLength; otherwise that many bytes follow |
| ByteArrayUtil.ReadDate | code/src/main/java/org/jacuzzi/core/ArrayMap.java:600-607 | Long.MIN_VALUE milliseconds read as null, any other long as that date |
| ByteArrayUtil.StringBytes | code/src/main/java/org/jacuzzi/core/ArrayMap.java:539-545 | a string takes four bytes more than its UTF-8 bytes |
| ByteArrayUtil.ReadersLeaveRest | code/src/main/java/org/jacuzzi/core/ArrayMap.java:551-607 | every successful read consumes a prefix of the input: the offset only moves forward |
| ByteArrayUtil.ReadByteWritten | code/src/main/java/org/jacuzzi/core/ArrayMap.java:551-553 | a written byte reads back, leaving what followed it |
| ByteArrayUtil.ReadIntWritten | code/src/main/java/org/jacuzzi/core/ArrayMap.java:555-565 | a written int reads back, leaving what followed it |
| ByteArrayUtil.ReadLongWritten | code/src/main/java/org/jacuzzi/core/ArrayMap.java:567-577 | a written long reads back, leaving what followed it |
| ByteArrayUtil.ReadBooleanWritten | code/src/main/java/org/jacuzzi/core/ArrayMap.java:583-585 | a written boolean reads back |
| ByteArrayUtil.ReadStringWritten | code/src/main/java/org/jacuzzi/core/ArrayMap.java:587-598 | a written string reads back as the same bytes, never as null |
| ByteArrayUtil.ReadDateWritten | code/src/main/java/org/jacuzzi/core/ArrayMap.java:600-607 | a written date reads back, except that the date at Long.MIN_VALUE reads back as null |
| ObjectArrays.TypeOf | code/src/main/java/org/jacuzzi/core/ArrayMap.java:465-483 | a value of a supported class has a type code and that code is one of the seven the format knows; any other class has none |
| ObjectArrays.Payload | code/src/main/java/org/jacuzzi/core/ArrayMap.java:486-502 | a value's payload can be written under a cached type exactly when the value is of that type (otherwise ClassCast, UnsupportedClass or UnexpectedType) |
| ObjectArrays.Item | code/src/main/java/org/jacuzzi/core/ArrayMap.java:445-503 | one element: it is accepted exactly when it is null or fits the cached type; its bytes are the presence byte and the payload; an unset type settles to the element's class |
| ObjectArrays.Items | code/src/main/java/org/jacuzzi/core/ArrayMap.java:444-504 | the elements are accepted exactly when each one is; the bytes are the elements' bytes in order; the types array keeps its length and each slot settles |
| ObjectArrays.ObjectArrayBytes | code/src/main/java/org/jacuzzi/core/ArrayMap.java:442-506 | an object array is written as its length followed by its elements, under the same acceptance condition |
| ObjectArrays.Unset | code/src/main/java/org/jacuzzi/core/ArrayMap.java:325-326 | a types array filled with -1 |
| ObjectArrays.ReadItemsFrom | code/src/main/java/org/jacuzzi/core/ArrayMap.java:410-437 | a successful element loop yields exactly n - i elements |
| ObjectArrays.ReadValueWritten | code/src/main/java/org/jacuzzi/core/ArrayMap.java:419-433 | a payload written under a value's type reads back as the value under that type (Long.MIN_VALUE dates excepted) |
| ObjectArrays.ReadItemWritten | code/src/main/java/org/jacuzzi/core/ArrayMap.java:410-436 | an element reads back, null included, when its position's type recovers it |
| ObjectArrays.ReadItemsWritten | code/src/main/java/org/jacuzzi/core/ArrayMap.java:410-437 | the elements from position i read back in order, leaving the bytes after them |
| ObjectArrays.ReadObjectArrayWritten | code/src/main/java/org/jacuzzi/core/ArrayMap.java:406-440 | a written object array reads back as the same elements when every position's type recovers its element |
| RowsCodec.ItemBytes | code/src/main/java/org/jacuzzi/core/ArrayMap.java:445-503 | the element's bytes exist exactly when it is accepted, and the failure is the same as the element rule's |
| RowsCodec.WritePayload | code/src/main/java/org/jacuzzi/core/ArrayMap.java:486-502 | stores the payload the type demands, or fails as the payload rule says |
| RowsCodec.WriteItem | code/src/main/java/org/jacuzzi/core/ArrayMap.java:445-503 | stores the element's bytes and settles its type slot (`types[i] = type`), or fails |
| RowsCodec.WriteObjectArray | code/src/main/java/org/jacuzzi/core/ArrayMap.java:442-506 | the loop stores exactly `ObjectArrayBytes` at the offset and leaves the settled types in the caller's array; on failure the error is the spec's own or an overrun |
| RowsCodec.ItemsFirstFailure | code/src/main/java/org/jacuzzi/core/ArrayMap.java:444-504 | the array fails with the error of its first rejected element |
| RowsCodec.RowBytes | code/src/main/java/org/jacuzzi/core/ArrayMap.java:335-340 | a row is written only when it is an ArrayMap row as wide as the first, and then as its value array |
| RowsCodec.WriteRow | code/src/main/java/org/jacuzzi/core/ArrayMap.java:335-340 | stores one row's value array and settles the shared types, or fails; a HashMap-backed row is ClassCast and a row of another width is LengthMismatch, before any byte is stored |
| RowsCodec.WriteRows | code/src/main/java/org/jacuzzi/core/ArrayMap.java:334-341 | the loop over the rows stores `RowsBytes` and leaves the final column types; a first row that fails the cast or the width check gives exactly that error |
| RowsCodec.NewTypes | code/src/main/java/org/jacuzzi/core/ArrayMap.java:329-330 | a fresh types array of n slots, all -1 |
| RowsCodec.WriteTypes | code/src/main/java/org/jacuzzi/core/ArrayMap.java:343-345 | the final types are patched, one byte each, into the gap reserved before the rows |
| RowsCodec.WriteRowsAndTypes | code/src/main/java/org/jacuzzi/core/ArrayMap.java:329-347 | reserves the gap, writes the rows, then fills the gap: the result is the type bytes followed by the rows; skipping the gap stores nothing, so a first row that fails the cast or the width check gives that error even when the gap passes the buffer's end |
| RowsCodec.FirstRowErrorIsRowsError | code/src/main/java/org/jacuzzi/core/ArrayMap.java:334-338 | the first row's cast or width error is the error of encoding all the rows |
| RowsCodec.WriteKeys | code/src/main/java/org/jacuzzi/core/ArrayMap.java:325-327 | the first row's keys are written as an object array of strings |
| RowsCodec.ConvertArrayRows | code/src/main/java/org/jacuzzi/core/ArrayMap.java:321-348 | stores exactly the 'A' body the format function gives; when the key array fits the buffer and the first row's width differs from the key count, the error is LengthMismatch, never an overrun |
| RowsCodec.ToBinaryArray | code/src/main/java/org/jacuzzi/core/ArrayMap.java:285-301 | stores exactly `EncodeRows(rows)` at the offset and returns the offset after it; on failure the error is the encoding's own or an overrun of the buffer; when the header, tag and key array fit and the first row's width differs from the key count, the error is LengthMismatch |
| RowsDecoder.ReadValue | code/src/main/java/org/jacuzzi/core/ArrayMap.java:419-435 | reads a payload under a type code: one of the seven codes, or UnexpectedType |
| RowsDecoder.ReadItem | code/src/main/java/org/jacuzzi/core/ArrayMap.java:410-436 | reads a presence byte (0 means null, 1 means a payload follows, anything else is BadPresence); with no types array every payload is a string |
| RowsDecoder.ReadItems | code/src/main/java/org/jacuzzi/core/ArrayMap.java:410-437 | the element loop reads exactly `ReadItemsFrom` and advances past it |
| RowsDecoder.ReadObjectArray | code/src/main/java/org/jacuzzi/core/ArrayMap.java:406-440 | reads the length, then that many elements; a negative length fails with NegativeLength |
| RowsDecoder.ObjectArrayLeavesRest | code/src/main/java/org/jacuzzi/core/ArrayMap.java:406-440 | a successful array read consumes a prefix of its input |
| RowsDecoder.CastKeys | code/src/main/java/org/jacuzzi/core/ArrayMap.java:375-379 | the key array read back is cast element by element to strings |
| RowsDecoder.NewZeros | code/src/main/java/org/jacuzzi/core/ArrayMap.java:381 | a fresh int array of n zeros |
| RowsDecoder.ReadValueTypes | code/src/main/java/org/jacuzzi/core/ArrayMap.java:381-384 | one type byte per column is read into the value-types array; a column past the array's end fails with OutOfBounds |
| RowsDecoder.ReadRows | code/src/main/java/org/jacuzzi/core/ArrayMap.java:386-388 | reads `size` value arrays and pairs each with the shared keys (NullKey when a key is null) |
| RowsDecoder.ConvertBinaryArrayToArrayRows | code/src/main/java/org/jacuzzi/core/ArrayMap.java:372-391 | decodes the 'A' body exactly as `ArrayRowsFrom` says; a negative row count fails with NegativeLength |
| RowsDecoder.FromBinaryArray | code/src/main/java/org/jacuzzi/core/ArrayMap.java:350-370 | decodes the whole buffer exactly as `DecodeRowsWith` says: BadHeader without "ROWS"; the empty list for count 0; 'H', 'A' or BadFormat by the tag |
| RowsFormat.KeyCells | code/src/main/java/org/jacuzzi/core/ArrayMap.java:327 | the keys as written: each key becomes a string cell at its own position |
| RowsFormat.KeysOf | code/src/main/java/org/jacuzzi/core/ArrayMap.java:376-379 | the cast back from cells to keys, position by position |
| RowsFormat.KeysOfKeyCells | code/src/main/java/org/jacuzzi/core/ArrayMap.java:375-379 | casting the written key cells gives the keys back, and each key cell reads back with no types array |
| RowsFormat.ReadTypesFrom | code/src/main/java/org/jacuzzi/core/ArrayMap.java:382-384 | reading k type bytes yields k types |
| RowsFormat.ReadTypesWritten | code/src/main/java/org/jacuzzi/core/ArrayMap.java:343-345 | the type bytes written after the rows read back as the same types |
| RowsFormat.RowsBytesShape | code/src/main/java/org/jacuzzi/core/ArrayMap.java:334-341 | when the row loop succeeds, every row fits the types and the bytes are the rows' images; each column's final type is the type it started with, or a real type code |
| RowsFormat.RowsBytesFits | code/src/main/java/org/jacuzzi/core/ArrayMap.java:334-341 | rows that fit the types are written without failure |
| RowsFormat.EncodeRowsSucceeds | code/src/main/java/org/jacuzzi/core/ArrayMap.java:285-348 | encoding succeeds exactly for an encodable list: the empty list, or ArrayMap rows as wide as the first whose columns each hold values of one supported class |
| RowsFormat.MixedColumnRejected | code/src/main/java/org/jacuzzi/core/ArrayMap.java:483-502 | two rows holding values of different classes in one column make the encoding fail |
| RowsFormat.EmptyWritten | code/src/main/java/org/jacuzzi/core/ArrayMap.java:357-360 | a zero row count reads back as the empty list, whatever follows |
| RowsFormat.HeaderWritten | code/src/main/java/org/jacuzzi/core/ArrayMap.java:352-366 | the header, a positive count and the tag 'A' lead to the 'A' body |
| RowsFormat.ArrayRowsTooNarrow | code/src/main/java/org/jacuzzi/core/ArrayMap.java:381-384 | as written, an 'A' body with more columns than rows fails with OutOfBounds once the keys are read |
| RowsFormat.EncodeDecode | code/src/main/java/org/jacuzzi/core/ArrayMap.java:285-391 | the bytes an encodable list without null keys or Long.MIN_VALUE dates is written as (with anything after them) decode, with the corrected type array, to the same rows, each re-keyed with the first row's keys |
| RowsFormat.DecodedSameKeys | code/src/main/java/org/jacuzzi/core/ArrayMap.java:372-391 | when every row has the first row's keys, the decoded list is the original list |
| RowsFormat.NullKeyRejected | code/src/main/java/org/jacuzzi/core/ArrayMap.java:44-52 | a list whose first row has a null key encodes, but decoding fails with NullKey when the map is rebuilt |
| RowsFormat.AsWrittenAgrees | code/src/main/java/org/jacuzzi/core/ArrayMap.java:381-384 | with at most as many columns as rows, the decoder as written agrees with the corrected one |
| RowsFormat.AsWrittenFailsOnWideRows | code/src/main/java/org/jacuzzi/core/ArrayMap.java:381-384 | as written, any encodable list with fewer rows than columns fails to decode with OutOfBounds |
| RowsFormat.OneRowTwoColumnsEncodable | code/src/main/java/org/jacuzzi/core/ArrayMap.java:285-348 | the one-row, two-column list is encodable |
| RowsFormat.OneRowTwoColumnsAsWritten | code/src/main/java/org/jacuzzi/core/ArrayMap.java:381-384 | the one-row, two-column list encodes, but the decoder as written rejects it with OutOfBounds |
| RowsFormat.OneRowTwoColumnsCorrected | code/src/main/java/org/jacuzzi/core/ArrayMap.java:381-384 | the corrected decoder reads the same bytes back as the original list |
| ArrayMaps.IndexOf | code/src/main/java/org/jacuzzi/core/ArrayMap.java:65-73 | the scan stops at the first slot holding the key, and finds none exactly when the key is absent |
| ArrayMaps.IndexOfDistinct | code/src/main/java/org/jacuzzi/core/ArrayMap.java:86-94 | among distinct keys, the key at position i is found at i |
| ArrayMaps.PutSpecValid | code/src/main/java/org/jacuzzi/core/ArrayMap.java:97-113 | put fails exactly for a new key in a full map; otherwise the state stays well-formed with the same capacity |
| ArrayMaps.PutThenGet | code/src/main/java/org/jacuzzi/core/ArrayMap.java:97-113 | after put, get of the key gives the new value and every other key keeps its value; put returns the previous value; an existing key keeps its slot and a new key is appended |
| ArrayMaps.PutKeepsDistinct | code/src/main/java/org/jacuzzi/core/ArrayMap.java:97-113 | put keeps the keys pairwise distinct |
| ArrayMaps.RemoveThenGet | code/src/main/java/org/jacuzzi/core/ArrayMap.java:116-130 | remove returns the previous value, the key is gone, every other key keeps its value, and the capacity is unchanged |
| ArrayMaps.RemoveDropsKey | code/src/main/java/org/jacuzzi/core/ArrayMap.java:116-130 | remove returns the value the key had, leaves the map well-formed at the same capacity, and the key then reads as null |
| ArrayMaps.RemoveKeepsOther | code/src/main/java/org/jacuzzi/core/ArrayMap.java:116-130 | after remove(k), every key other than k reads as it did before |
| ArrayMaps.RemoveKeepsDistinct | code/src/main/java/org/jacuzzi/core/ArrayMap.java:116-130 | remove keeps the keys pairwise distinct |
| ArrayMaps.RemoveKeepsOrder | code/src/main/java/org/jacuzzi/core/ArrayMap.java:116-130 | the keys left after a remove are in their old relative order |
| ArrayMaps.PutAllFresh | code/src/main/java/org/jacuzzi/core/ArrayMap.java:133-136 | putting distinct new entries that fit appends them, keys and values, in iteration order |
| ArrayMaps.PutAllSize | code/src/main/java/org/jacuzzi/core/ArrayMap.java:133-136 | putAll grows the map by at most the number of entries and keeps it well-formed |
| ArrayMaps.PutAllFits | code/src/main/java/org/jacuzzi/core/ArrayMap.java:31-42 | when the entries fit the capacity, putAll cannot fail; this is why the copy constructor sizes the arrays to the map's size |
| ArrayMaps.ShiftedHashes | code/src/main/java/org/jacuzzi/core/ArrayMap.java:121-123 | the block copies in remove keep each cached hash next to its key |
| ArrayMaps.ArrayCopyDown | code/src/main/java/org/jacuzzi/core/ArrayMap.java:121-123 | `System.arraycopy(a, i + 1, a, i, size - i - 1)`: the slots after i move down by one |
| ArrayMaps.ArrayMap.constructor | code/src/main/java/org/jacuzzi/core/ArrayMap.java:24-28 | an empty map with fresh arrays of the given capacity |
| ArrayMaps.ArrayMap.FromArrays | code/src/main/java/org/jacuzzi/core/ArrayMap.java:44-52 | a full map over the caller's own key and value arrays, the hash codes computed |
| ArrayMaps.ArrayMap.Sharing | code/src/main/java/org/jacuzzi/core/RowRoll.java:83 | a full map over the caller's key, hash and value arrays, as getRow builds it |
| ArrayMaps.ArrayMap.ContainsKey | code/src/main/java/org/jacuzzi/core/ArrayMap.java:65-73 | true exactly when the key is among the live keys |
| ArrayMaps.ArrayMap.ContainsValue | code/src/main/java/org/jacuzzi/core/ArrayMap.java:76-83 | true exactly when the value is among the live values |
| ArrayMaps.ArrayMap.Get | code/src/main/java/org/jacuzzi/core/ArrayMap.java:86-94 | the value at the key's first slot, or null when the key is absent |
| ArrayMaps.ArrayMap.Put | code/src/main/java/org/jacuzzi/core/ArrayMap.java:97-113 | the new state and the returned value are those of `PutSpec`; a new key in a full map fails and changes nothing |
| ArrayMaps.ArrayMap.Remove | code/src/main/java/org/jacuzzi/core/ArrayMap.java:116-130 | the new state and the returned value are those of `RemoveSpec`: the key's slot is closed up by block copies |
| ArrayMaps.ArrayMap.RemoveAt | code/src/main/java/org/jacuzzi/core/ArrayMap.java:120-126 | removing slot i shifts the later slots down and shrinks the size by one |
| ArrayMaps.ArrayMap.PutAll | code/src/main/java/org/jacuzzi/core/ArrayMap.java:133-136 | the entries are put one by one; the result is `PutAllSpec` or its first failure, and the map is left as `PutAllReached` says: on failure it keeps the entries put before the failing one |
| ArrayMaps.PutAllReachedOnSuccess | code/src/main/java/org/jacuzzi/core/ArrayMap.java:133-136 | when putAll succeeds, the state it reaches is its result |
| ArrayMaps.PutAllStopsAtOverrun | code/src/main/java/org/jacuzzi/core/ArrayMap.java:133-136 | when putAll fails, it fails at some entry i: the map holds exactly the entries before i, put in turn, and putting entry i into that map is the failure |
| ArrayMaps.ArrayMap.Clear | code/src/main/java/org/jacuzzi/core/ArrayMap.java:139-141 | the map becomes empty while the arrays keep their stale contents |
| ArrayMaps.ArrayMap.CopyOf | code/src/main/java/org/jacuzzi/core/ArrayMap.java:31-42 | more than 64 entries fail with TooManyEntries; otherwise a map of exactly that capacity holding the entries as putAll leaves them |
| ArrayMaps.EntryIterator.constructor | code/src/main/java/org/jacuzzi/core/ArrayMap.java:264-266 | an iterator over the owner, at position 0 |
| ArrayMaps.EntryIterator.Next | code/src/main/java/org/jacuzzi/core/ArrayMap.java:274-277 | advances the position and returns the entry before it; past the arrays' end it fails with IndexOutOfBounds |
| ArrayMaps.EntryList | code/src/main/java/org/jacuzzi/core/ArrayMap.java:233-238 | iterating the entry set yields the live entries in slot order |
| RowRolls.TypeStepExact | code/src/main/java/org/jacuzzi/core/RowRoll.java:26-27 | one round of the fingerprint on a wrapped accumulator equals the wrapped round on the exact value |
| RowRolls.TypeIsExactModulo | code/src/main/java/org/jacuzzi/core/RowRoll.java:23-30 | the fingerprint, wrapped after every statement, is the exact polynomial in the key lengths and hashes reduced to a long |
| RowRolls.RowCellsOfOwnKeys | code/src/main/java/org/jacuzzi/core/RowRoll.java:44-47 | a row read under its own distinct keys, in their order, is stored as its values |
| RowRolls.RowRoll.constructor | code/src/main/java/org/jacuzzi/core/RowRoll.java:11-15 | a new roll has no keys and no row list |
| RowRolls.RowRoll.SetKeys | code/src/main/java/org/jacuzzi/core/RowRoll.java:18-21 | adopts the caller's key array, caches its hashes and sets the fingerprint to `TypeOf` of the keys; the rows are kept |
| RowRolls.RowRoll.InitializeKeyHashCodesAndType | code/src/main/java/org/jacuzzi/core/RowRoll.java:55-62 | fills a fresh hash array with each key's `hashCode` and sets the fingerprint |
| RowRolls.RowRoll.CalculateType | code/src/main/java/org/jacuzzi/core/RowRoll.java:23-30 | the loop computes `TypeOf(keys)`, the fold of both statements with long wrap-around |
| RowRolls.RowRoll.AddRow | code/src/main/java/org/jacuzzi/core/RowRoll.java:32-53 | a roll without keys takes the row's keys in key-set order; the row is appended as its value under each key, null for a missing key |
| RowRolls.RowRoll.KeysInOrder | code/src/main/java/org/jacuzzi/core/RowRoll.java:34-39 | a fresh key array holding the row's keys in iteration order |
| RowRolls.RowRoll.CellsOf | code/src/main/java/org/jacuzzi/core/RowRoll.java:44-47 | a fresh value array holding `row.get(key)` for each key |
| RowRolls.RowRoll.AddValues | code/src/main/java/org/jacuzzi/core/RowRoll.java:65-75 | appends the values when their length is the key count; otherwise IllegalValuesSize (NullPointer without keys), and the rows are unchanged |
| RowRolls.RowRoll.GetRow | code/src/main/java/org/jacuzzi/core/RowRoll.java:77-85 | an index outside [0, size) is IllegalIndex (NullPointer with no list); an index in range over a row as wide as the keys always succeeds, with a map over the roll's keys and hashes whose values are that row |
| RowRolls.RowRoll.IsEmpty | code/src/main/java/org/jacuzzi/core/RowRoll.java:88-90 | true exactly when there are no rows, list or not |
| RowRolls.RowRoll.Size | code/src/main/java/org/jacuzzi/core/RowRoll.java:92-94 | the number of rows, 0 without a list |
| RowRolls.RowRoll.Add | code/src/main/java/org/jacuzzi/core/RowRoll.java:96-114 | a roll without keys is ignored; a different fingerprint is Incompatible and changes nothing; otherwise the other roll's rows are appended |
| RowRolls.RowRoll.GetColumnCount | code/src/main/java/org/jacuzzi/core/RowRoll.java:124-126 | the number of keys, 0 without keys |
| RowRolls.RowRoll.GetColumn | code/src/main/java/org/jacuzzi/core/RowRoll.java:136-149 | the first position of the key, or -1 when the key or the key array is null or the key is absent |
| RowRolls.RowRoll.GetValue | code/src/main/java/org/jacuzzi/core/RowRoll.java:151-157 | column -1 gives null; otherwise the cell at that row and column, NullPointer with no list, OutOfRange outside the rows |
| RowRolls.FirstRowKept | code/src/main/java/org/jacuzzi/core/RowRoll.java:32-53 | a new roll given one row with distinct keys holds exactly that row's values under its keys, with the fingerprint of those keys |
| Queries.SubstUsesOnePerJoker | code/src/main/java/org/jacuzzi/core/Query.java:23-56 | the scan consumes one argument per joker: it fails with MissingArgument exactly when there are more jokers than arguments, and otherwise leaves the arguments after the first JokerCount |
| Queries.ExpandSucceedsIffCountsMatch | code/src/main/java/org/jacuzzi/core/Query.java:58-60 | format succeeds exactly when the jokers and the arguments are equal in number; more jokers fail with MissingArgument and fewer with NotEnoughJokers |
| Queries.SubstWithoutJokers | code/src/main/java/org/jacuzzi/core/Query.java:55 | a template without jokers is copied and uses no argument |
| Queries.NoJokersUnchanged | code/src/main/java/org/jacuzzi/core/Query.java:16-63 | a template without jokers and no arguments formats to itself |
| Queries.SubstLength | code/src/main/java/org/jacuzzi/core/Query.java:23-56 | each joker's two characters become its argument, plus two backquotes when quoted |
| Queries.ExpandLength | code/src/main/java/org/jacuzzi/core/Query.java:16-63 | the output length is the template's, less two per joker, plus the arguments', plus two per quoted joker; with both flags set it is the template's plus the arguments' |
| Queries.AllQuoted | code/src/main/java/org/jacuzzi/core/Query.java:28-47 | with both flags set every joker is quoted |
| Queries.JokerStep | code/src/main/java/org/jacuzzi/core/Query.java:25-52 | at a joker the scan emits the next argument, quoted by its flag, and moves two characters on |
| Queries.LiteralStep | code/src/main/java/org/jacuzzi/core/Query.java:55 | any other character is copied and the scan moves one character on |
| Queries.Format | code/src/main/java/org/jacuzzi/core/Query.java:16-63 | the loop produces exactly `Expand(query, args, fieldQuotation, tableQuotation)` |
| Queries.FormatAlwaysQuoted | trunk/code/src/org/jacuzzi/core/Query.java:16-52 | the older loop produces exactly `Expand(query, args, true, true)`: both kinds of joker always get backquotes |
| AccessorNames.ToUpper | trunk/code/src/main/java/org/jacuzzi/core/ReflectionUtil.java:37 | lower-case letters become upper-case; every other character is unchanged |
| AccessorNames.ToLower | trunk/code/src/main/java/org/jacuzzi/core/ReflectionUtil.java:151 | upper-case letters become lower-case; every other character is unchanged |
| AccessorNames.CaseRoundTrip | trunk/code/src/main/java/org/jacuzzi/core/ReflectionUtil.java:151-158 | lowering an upper-cased letter, or raising a lowered one, gives it back |
| AccessorNames.AccessorName | trunk/code/src/main/java/org/jacuzzi/core/ReflectionUtil.java:32-54 | an empty field name fails with FieldNameTooShort; otherwise the name is the prefix ("set", "get" or "is"), the field's first character upper-cased, then the rest of the field |
| AccessorNames.DerivedFieldName | trunk/code/src/main/java/org/jacuzzi/core/ReflectionUtil.java:149-160 | a field name derived from a method name is non-empty and starts with a lower-case letter |
| AccessorNames.DerivedFromAccessor | trunk/code/src/main/java/org/jacuzzi/core/ReflectionUtil.java:149-160 | the field derived from an accessor name built from a field is the field itself when it starts lower-case, its lowered form when it starts upper-case, and none otherwise |
| AccessorNames.FieldFromAccessors | trunk/code/src/main/java/org/jacuzzi/core/ReflectionUtil.java:32-54 | a field starting with a lower-case letter is recovered from its setter, getter and boolean-getter names |
| AccessorNames.AccessorFromDerived | trunk/code/src/main/java/org/jacuzzi/core/ReflectionUtil.java:149-160 | a method name that yields a field is that field's getter, setter or boolean-getter name, as its prefix says |

## Left out

- The 'H' branch of the codec is not modelled. It covers rows backed by a HashMap, which go through Java object serialization (`ArrayMap.java:290-292` and `:363-364`). The model treats such rows as `Failure(SerializedForm)` in both directions.
- The codec stores a String as its UTF-8 bytes and a double as its raw bit pattern. The conversions to and from Java `String` and `double` are not modelled.
- Bytes are written into a buffer the caller sizes. An overrun of that buffer is the error `OutOfBounds`. The model does not say which bytes an interrupted write left behind.
- RowsCodec.WriteObjectArray, RowsCodec.WriteRows, RowsCodec.WriteRowsAndTypes, RowsCodec.ConvertArrayRows, RowsCodec.ToBinaryArray: when the encoding itself fails, their contracts (through `FailsAs`) accept `OutOfBounds` in place of the encoding's error without saying that a store ran past the buffer's end first. The bodies return `OutOfBounds` only where a store does not fit, as the source throws. Only the first row's cast and width errors are stated exactly.
- Java's `int[] offset` cursor in the readers becomes a returned offset.
- The types array of the reader becomes a parameter, `typesByRowCount`, that chooses between the code as written and the corrected form (see Findings).
- ByteArrayUtil.ReadDateWritten: a date at Long.MIN_VALUE reads back as null, so `RowsFormat.EncodeDecode` excludes such dates.
- ArrayMaps: null keys and `equals`/`hashCode` of arbitrary classes are not modelled. Keys are compared with `==`, and the hash is a function given to the constructor.
- ArrayMaps: `size()` and `isEmpty()` read the `size` field, which the model exposes directly.
- ArrayMaps: the `keySet()` and `values()` views and their caches are left out. They only delegate to `containsKey`, `containsValue`, `clear` and the entry iterator, which are modelled.
- ArrayMaps.ArrayMap.FromArrays: requires the value array to be as long as the key array. The private constructor (`ArrayMap.java:44-52`) accepts a value array of any length, and fromBinaryArray (`:387`) passes one whose length was read from the buffer. A class map over arrays of different lengths is not modelled. In the source its size is the key count, so reading a value past the end of a shorter value array would throw. The decoder instead keeps such a row as the value `ArrayRow(keys, values)` of `RowsFormat`, with the value length the bytes give.
- ArrayMaps.EntryIterator.Next: the iterator's `remove` throws UnsupportedOperationException and is left out.
- ArrayMaps: the older copy's `test()` and `main` benchmarks are left out. They time HashMap and print, and are not part of the map.
- RowRolls.RowRoll.GetRow: the source shares the stored `Object[]` with the returned map. The model copies it into a fresh array, so writes through the returned map are not seen in the roll.
- RowRolls.RowRoll.GetRow: getRow (`RowRoll.java:83`) calls a three-argument ArrayMap constructor that `ArrayMap.java` does not define. The model supplies it as `ArrayMaps.ArrayMap.Sharing`, which adopts the keys and hashes and sets size to the key count. A stored row of another width is reported as WidthMismatch.
- RowRolls.RowRoll.Add: when this roll has no list, the source adopts the other roll's list object. The model copies the rows by value, so later additions to either roll are not seen by the other.
- RowRolls: rows are kept as a sequence of values rather than an `ArrayList<Object[]>`. `trimToSize`, `getKeys` and `getValueList` only expose or resize that list and are left out.
- RowRolls.RowRoll.SetKeys: `setKeys(null)` and null key elements throw NullPointerException in the source; the model takes a non-null array of strings.
- RowRolls.JavaHash: the hash is taken over Dafny characters, which stand for Java's UTF-16 code units only for text in the Basic Multilingual Plane.
- RowRolls.RowRoll.AddRow: a Row's key set is modelled by the delegate ArrayMap's keys in slot order; a HashMap-backed Row's iteration order is not modelled.
- Queries: arguments are given as the strings `StringBuffer.append(Object)` makes of them. The two quotation flags come from system properties in the source and are parameters here.
- AccessorNames: letter case is that of ASCII letters. `Character.toUpperCase`, `toLowerCase` and `isUpperCase` on other scripts are not modelled.
- AccessorNames: the reflection itself is not modelled: walking the class hierarchy, `@Transient`, and looking up FastMethods.
- JDBC, data sources, DAOs and the type oracle lie outside the modelled core.

## Findings

| source | as written | input that shows it | evidently intended | confidence | as-written member | corrected member |
|---|---|---|---|---|---|---|
| code/src/main/java/org/jacuzzi/core/ArrayMap.java:381 | `valueTypes` is allocated with one slot per row (`new int[size]`), yet the loop after it stores one type byte per column | a list of one row with two columns: `toBinaryArray` writes it, and `fromBinaryArray` throws ArrayIndexOutOfBoundsException at `valueTypes[1]` | one slot per column (`new int[keys.length]`), so that every list `toBinaryArray` writes reads back | not executed | RowsFormat.OneRowTwoColumnsAsWritten | RowsFormat.OneRowTwoColumnsCorrected |
| code/src/main/java/org/jacuzzi/core/ArrayMap.java:381-384 | the same allocation, for any list | any encodable list with fewer rows than columns | the decoded list equals the encoded one | not executed | RowsFormat.AsWrittenFailsOnWideRows | RowsFormat.EncodeDecode |

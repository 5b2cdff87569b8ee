/**
 * ArrayMap: a fixed-capacity map over three parallel arrays (keys, cached key
 * hashes, values) and a size, kept in insertion order, searched by linear scan.
 *
 * The first half states what a map state is and does as functions on the
 * sequences `keys[0..size)` and `values[0..size)`; the class below updates the
 * arrays in place and is proved against those functions.
 */
module ArrayMaps {
  import opened Wrappers
  import opened JavaInts

  /** The copy constructor refuses maps larger than this. */
  const MAX_CAPACITY: nat := 64

  datatype MapError =
    | CapacityExceeded          // a new key when size == capacity (the store at keys[size] overruns)
    | TooManyEntries(size: nat) // copy constructor: IllegalArgumentException
    | IndexOutOfBounds          // iterator next() past the end of the arrays

  /** Keys pairwise distinct, as `put` keeps them. */
  ghost predicate Distinct<K>(ks: seq<K>)
  {
    forall i, j :: 0 <= i < j < |ks| ==> ks[i] != ks[j]
  }

  /** The first position of k in ks: the slot every scan in the map stops at. */
  function IndexOf<K(==)>(ks: seq<K>, k: K): (r: Option<nat>)
    ensures r.None? <==> k !in ks
    ensures r.Some? ==> r.value < |ks| && ks[r.value] == k && k !in ks[..r.value]
  {
    if ks == [] then None
    else if ks[0] == k then Some(0)
    else match IndexOf(ks[1..], k)
      case None => None
      case Some(i) =>
        assert ks[..i + 1] == [ks[0]] + ks[1..][..i];
        Some(i + 1)
  }

  /** A position where k occurs and does not occur before is the one IndexOf finds. */
  lemma IndexOfUnique<K>(ks: seq<K>, k: K, i: nat)
    requires i < |ks| && ks[i] == k && k !in ks[..i]
    ensures IndexOf(ks, k) == Some(i)
  {
    var j := IndexOf(ks, k).value;
    assert forall a :: 0 <= a < j ==> ks[..j][a] == ks[a];
    assert forall a :: 0 <= a < i ==> ks[..i][a] == ks[a];
  }

  /** In a sequence of distinct keys, the key at position i is found at i. */
  lemma IndexOfDistinct<K>(ks: seq<K>, i: nat)
    requires Distinct(ks) && i < |ks|
    ensures IndexOf(ks, ks[i]) == Some(i)
  {
    forall j | 0 <= j < i ensures ks[..i][j] != ks[i] {
    }
    IndexOfUnique(ks, ks[i], i);
  }

  /** `get`: the value stored with the first occurrence of k, None (null) when k is absent. */
  function Lookup<K(==), V>(ks: seq<K>, vs: seq<V>, k: K): Option<V>
    requires |ks| == |vs|
  {
    match IndexOf(ks, k)
    case None => None
    case Some(i) => Some(vs[i])
  }

  /** The entries in iteration order: `(keys[i], values[i])` for i = 0 .. size-1. */
  function Zip<K, V>(ks: seq<K>, vs: seq<V>): (es: seq<(K, V)>)
    requires |ks| == |vs|
    ensures |es| == |ks|
    ensures forall i :: 0 <= i < |ks| ==> es[i] == (ks[i], vs[i])
  {
    if ks == [] then [] else [(ks[0], vs[0])] + Zip(ks[1..], vs[1..])
  }

  /** The abstract state of a map: its live keys and values, in order, and its fixed capacity. */
  datatype State<K, V> = State(keys: seq<K>, vals: seq<V>, capacity: nat)
  {
    ghost predicate Valid()
    {
      |keys| == |vals| <= capacity
    }
  }

  /** What `put` leaves and returns: the new state and the previous value (None for null). */
  datatype Update<K, V> = Update(state: State<K, V>, previous: Option<V>)

  /**
   * `put(k, v)`: overwrite the value of a present key in place, or append a new
   * key at position size; a new key when the arrays are full is an error.
   */
  function PutSpec<K(==), V>(s: State<K, V>, k: K, v: V): Result<Update<K, V>, MapError>
    requires s.Valid()
  {
    match IndexOf(s.keys, k)
    case Some(i) => Success(Update(s.(vals := s.vals[i := v]), Some(s.vals[i])))
    case None =>
      if |s.keys| < s.capacity then Success(Update(s.(keys := s.keys + [k], vals := s.vals + [v]), None))
      else Failure(CapacityExceeded)
  }

  /** `remove(k)`: close the gap left by the first occurrence of k, or change nothing. */
  function RemoveSpec<K(==), V>(s: State<K, V>, k: K): Update<K, V>
    requires s.Valid()
  {
    match IndexOf(s.keys, k)
    case None => Update(s, None)
    case Some(i) =>
      Update(s.(keys := s.keys[..i] + s.keys[i + 1..], vals := s.vals[..i] + s.vals[i + 1..]), Some(s.vals[i]))
  }

  /** `putAll`: put each entry in turn, stopping at the first failure. */
  function PutAllSpec<K(==), V>(s: State<K, V>, es: seq<(K, V)>): Result<State<K, V>, MapError>
    requires s.Valid()
    decreases |es|
  {
    if es == [] then Success(s)
    else match PutSpec(s, es[0].0, es[0].1)
      case Failure(e) => Failure(e)
      case Success(p) =>
        PutSpecValid(s, es[0].0, es[0].1);
        PutAllSpec(p.state, es[1..])
  }

  /**
   * The state `putAll` leaves: every entry put in turn up to the first one that
   * overruns the arrays, which changes nothing and stops the loop.
   */
  function PutAllReached<K(==), V>(s: State<K, V>, es: seq<(K, V)>): (t: State<K, V>)
    requires s.Valid()
    ensures t.Valid() && t.capacity == s.capacity
    decreases |es|
  {
    if es == [] then s
    else match PutSpec(s, es[0].0, es[0].1)
      case Failure(_) => s
      case Success(p) =>
        PutSpecValid(s, es[0].0, es[0].1);
        PutAllReached(p.state, es[1..])
  }

  // ---------------------------------------------------------------------------
  // Properties of the map operations

  /** put keeps the state well formed, fails exactly when a new key meets a full map, and keeps the capacity. */
  lemma PutSpecValid<K, V>(s: State<K, V>, k: K, v: V)
    requires s.Valid()
    ensures PutSpec(s, k, v).Failure? <==> k !in s.keys && |s.keys| == s.capacity
    ensures PutSpec(s, k, v).Success? ==>
      PutSpec(s, k, v).value.state.Valid() && PutSpec(s, k, v).value.state.capacity == s.capacity
  {
  }

  /**
   * After a successful put, get(k) is the new value and every other key reads
   * as before; a present key keeps its position and the key order is unchanged,
   * a new key goes last.
   */
  lemma {:induction false} PutThenGet<K, V>(s: State<K, V>, k: K, v: V, other: K)
    requires s.Valid() && PutSpec(s, k, v).Success?
    ensures var t := PutSpec(s, k, v).value.state;
      Lookup(t.keys, t.vals, k) == Some(v) &&
      (other != k ==> Lookup(t.keys, t.vals, other) == Lookup(s.keys, s.vals, other)) &&
      PutSpec(s, k, v).value.previous == Lookup(s.keys, s.vals, k) &&
      (k in s.keys ==> t.keys == s.keys) &&
      (k !in s.keys ==> t.keys == s.keys + [k])
  {
    var t := PutSpec(s, k, v).value.state;
    match IndexOf(s.keys, k)
    case Some(i) =>
      assert t.keys == s.keys;
    case None =>
      assert t.keys == s.keys + [k];
      IndexOfUnique(t.keys, k, |s.keys|);
      if other in s.keys {
        var j := IndexOf(s.keys, other).value;
        assert t.keys[..j] == s.keys[..j];
        IndexOfUnique(t.keys, other, j);
      } else if other != k {
        assert other !in t.keys;
      }
  }

  /** put never introduces a duplicate key. */
  lemma PutKeepsDistinct<K, V>(s: State<K, V>, k: K, v: V)
    requires s.Valid() && Distinct(s.keys) && PutSpec(s, k, v).Success?
    ensures Distinct(PutSpec(s, k, v).value.state.keys)
  {
  }

  /**
   * After removing a present key from a map with distinct keys, get(k) is null,
   * every other key reads as before, and the returned value was k's.
   */
  lemma {:induction false} RemoveThenGet<K, V>(s: State<K, V>, k: K, other: K)
    requires s.Valid() && Distinct(s.keys)
    ensures var p := RemoveSpec(s, k);
      p.state.Valid() && p.state.capacity == s.capacity &&
      p.previous == Lookup(s.keys, s.vals, k) &&
      Lookup(p.state.keys, p.state.vals, k) == None &&
      (other != k ==> Lookup(p.state.keys, p.state.vals, other) == Lookup(s.keys, s.vals, other))
  {
    RemoveDropsKey(s, k);
    if other != k {
      RemoveKeepsOther(s, k, other);
    }
  }

  /** The shape of `RemoveSpec` when the key is present: the slots after i move down by one. */
  lemma RemovedAt<K, V>(s: State<K, V>, k: K, i: nat)
    requires s.Valid() && IndexOf(s.keys, k) == Some(i)
    ensures var t := RemoveSpec(s, k).state;
      i < |s.keys| && s.keys[i] == k && |t.keys| == |t.vals| == |s.keys| - 1 &&
      (forall a :: 0 <= a < |t.keys| ==> t.keys[a] == s.keys[if a < i then a else a + 1]) &&
      (forall a :: 0 <= a < |t.vals| ==> t.vals[a] == s.vals[if a < i then a else a + 1])
  {
  }

  /** After remove(k), k is absent from a map whose keys were distinct. */
  lemma RemoveDropsKey<K, V>(s: State<K, V>, k: K)
    requires s.Valid() && Distinct(s.keys)
    ensures var p := RemoveSpec(s, k);
      p.state.Valid() && p.state.capacity == s.capacity &&
      p.previous == Lookup(s.keys, s.vals, k) &&
      Lookup(p.state.keys, p.state.vals, k) == None
  {
    match IndexOf(s.keys, k)
    case None =>
    case Some(i) =>
      var t := RemoveSpec(s, k).state;
      RemovedAt(s, k, i);
      assert k !in t.keys by {
        forall a | 0 <= a < |t.keys| ensures t.keys[a] != k {
        }
      }
  }

  /** After remove(k), every other key reads as before. */
  lemma RemoveKeepsOther<K, V>(s: State<K, V>, k: K, other: K)
    requires s.Valid() && Distinct(s.keys) && other != k
    ensures var t := RemoveSpec(s, k).state;
      Lookup(t.keys, t.vals, other) == Lookup(s.keys, s.vals, other)
  {
    match IndexOf(s.keys, k)
    case None =>
    case Some(i) =>
      var t := RemoveSpec(s, k).state;
      RemovedAt(s, k, i);
      if other in s.keys {
        var j := IndexOfDistinctAt(s.keys, other);
        var a := if j < i then j else j - 1;
        assert t.keys[a] == other && t.vals[a] == s.vals[j];
        RemoveKeepsDistinct(s, k);
        IndexOfDistinct(t.keys, a);
      } else {
        assert other !in t.keys;
      }
  }

  /** remove never introduces a duplicate key. */
  lemma RemoveKeepsDistinct<K, V>(s: State<K, V>, k: K)
    requires s.Valid() && Distinct(s.keys)
    ensures Distinct(RemoveSpec(s, k).state.keys)
  {
    match IndexOf(s.keys, k)
    case None =>
    case Some(i) =>
      var t := RemoveSpec(s, k).state.keys;
      forall a, b | 0 <= a < b < |t| ensures t[a] != t[b] {
        var a', b' := if a < i then a else a + 1, if b < i then b else b + 1;
        assert t[a] == s.keys[a'] && t[b] == s.keys[b'];
      }
  }

  /** The position of a key that occurs in a distinct sequence. */
  lemma IndexOfDistinctAt<K>(ks: seq<K>, k: K) returns (j: nat)
    requires Distinct(ks) && k in ks
    ensures j < |ks| && ks[j] == k && IndexOf(ks, k) == Some(j)
  {
    j := IndexOf(ks, k).value;
  }

  /**
   * remove keeps the relative order of the remaining keys: of any two keys left,
   * the earlier one was earlier before the removal.
   */
  lemma RemoveKeepsOrder<K, V>(s: State<K, V>, k: K, a: nat, b: nat)
    requires s.Valid() && Distinct(s.keys)
    requires a < b < |RemoveSpec(s, k).state.keys|
    ensures var t := RemoveSpec(s, k).state.keys;
      IndexOf(s.keys, t[a]).value < IndexOf(s.keys, t[b]).value
  {
    var t := RemoveSpec(s, k).state.keys;
    match IndexOf(s.keys, k)
    case None =>
      IndexOfDistinct(s.keys, a);
      IndexOfDistinct(s.keys, b);
    case Some(i) =>
      var a' := if a < i then a else a + 1;
      var b' := if b < i then b else b + 1;
      assert t[a] == s.keys[a'] && t[b] == s.keys[b'];
      IndexOfDistinct(s.keys, a');
      IndexOfDistinct(s.keys, b');
  }

  /**
   * putAll of entries with distinct keys, none already present, that fit in the
   * remaining capacity succeeds and appends them in order: inserting capacity
   * distinct keys never fails.
   */
  lemma {:induction false} PutAllFresh<K, V>(s: State<K, V>, es: seq<(K, V)>)
    requires s.Valid() && |s.keys| + |es| <= s.capacity
    requires forall i, j :: 0 <= i < j < |es| ==> es[i].0 != es[j].0
    requires forall i :: 0 <= i < |es| ==> es[i].0 !in s.keys
    ensures PutAllSpec(s, es).Success?
    ensures PutAllSpec(s, es).value.keys == s.keys + seq(|es|, i requires 0 <= i < |es| => es[i].0)
    ensures PutAllSpec(s, es).value.vals == s.vals + seq(|es|, i requires 0 <= i < |es| => es[i].1)
    ensures PutAllSpec(s, es).value.capacity == s.capacity
    decreases |es|
  {
    if es != [] {
      var p := PutSpec(s, es[0].0, es[0].1);
      assert p.Success? && p.value.state == s.(keys := s.keys + [es[0].0], vals := s.vals + [es[0].1]);
      var t := p.value.state;
      var rest := es[1..];
      assert forall i :: 0 <= i < |rest| ==> rest[i].0 !in t.keys by {
        forall i | 0 <= i < |rest| ensures rest[i].0 !in t.keys {
          assert rest[i] == es[i + 1];
        }
      }
      PutAllFresh(t, rest);
      assert t.keys + seq(|rest|, i requires 0 <= i < |rest| => rest[i].0)
          == s.keys + seq(|es|, i requires 0 <= i < |es| => es[i].0);
      assert t.vals + seq(|rest|, i requires 0 <= i < |rest| => rest[i].1)
          == s.vals + seq(|es|, i requires 0 <= i < |es| => es[i].1);
    }
  }

  /** putAll never leaves more keys than it was given plus those already there. */
  lemma {:induction false} PutAllSize<K, V>(s: State<K, V>, es: seq<(K, V)>)
    requires s.Valid() && PutAllSpec(s, es).Success?
    ensures |PutAllSpec(s, es).value.keys| <= |s.keys| + |es|
    ensures PutAllSpec(s, es).value.Valid() && PutAllSpec(s, es).value.capacity == s.capacity
    decreases |es|
  {
    if es != [] {
      PutSpecValid(s, es[0].0, es[0].1);
      PutAllSize(PutSpec(s, es[0].0, es[0].1).value.state, es[1..]);
    }
  }

  /** putAll never fails when every entry fits, even with repeated keys. */
  lemma {:induction false} PutAllFits<K, V>(s: State<K, V>, es: seq<(K, V)>)
    requires s.Valid() && |s.keys| + |es| <= s.capacity
    ensures PutAllSpec(s, es).Success?
    decreases |es|
  {
    if es != [] {
      PutSpecValid(s, es[0].0, es[0].1);
      PutAllFits(PutSpec(s, es[0].0, es[0].1).value.state, es[1..]);
    }
  }

  /** When putAll succeeds, the state it reaches is its result. */
  lemma {:induction false} PutAllReachedOnSuccess<K, V>(s: State<K, V>, es: seq<(K, V)>)
    requires s.Valid() && PutAllSpec(s, es).Success?
    ensures PutAllReached(s, es) == PutAllSpec(s, es).value
    decreases |es|
  {
    if es != [] {
      PutSpecValid(s, es[0].0, es[0].1);
      PutAllReachedOnSuccess(PutSpec(s, es[0].0, es[0].1).value.state, es[1..]);
    }
  }

  /**
   * When putAll fails, it fails at some entry i: the entries before i were all
   * put, the map holds exactly them, and putting entry i into it is the failure.
   */
  lemma {:induction false} PutAllStopsAtOverrun<K, V>(s: State<K, V>, es: seq<(K, V)>) returns (i: nat)
    requires s.Valid() && PutAllSpec(s, es).Failure?
    ensures i < |es| && PutAllSpec(s, es[..i]).Success?
    ensures PutAllReached(s, es) == PutAllSpec(s, es[..i]).value
    ensures PutSpec(PutAllReached(s, es), es[i].0, es[i].1) == Failure(PutAllSpec(s, es).error)
    decreases |es|
  {
    assert es != [];
    assert es[..0] == [];
    match PutSpec(s, es[0].0, es[0].1)
    case Failure(_) =>
      i := 0;
    case Success(p) =>
      PutSpecValid(s, es[0].0, es[0].1);
      var j := PutAllStopsAtOverrun(p.state, es[1..]);
      i := j + 1;
      assert es[..i][1..] == es[1..][..j];
      assert es[..i][0] == es[0];
      assert es[1..][j] == es[i];
  }

  // ---------------------------------------------------------------------------
  // The in-place implementation

  /** `System.arraycopy(a, i + 1, a, i, size - (i + 1))`: the array after the block copy. */
  function ShiftedLeft<T>(s: seq<T>, i: nat, size: nat): seq<T>
    requires i < size <= |s|
  {
    s[..i] + s[i + 1..size] + s[size - 1..]
  }

  /** Shifting the keys and their cached hashes alike keeps every live hash matching its key. */
  lemma ShiftedHashes<K>(ks: seq<K>, hs: seq<int32>, i: nat, size: nat, hash: K -> int32)
    requires i < size <= |ks| == |hs|
    requires forall j :: 0 <= j < size ==> hs[j] == hash(ks[j])
    ensures forall j :: 0 <= j < size - 1 ==> ShiftedLeft(hs, i, size)[j] == hash(ShiftedLeft(ks, i, size)[j])
  {
    forall j | 0 <= j < size - 1
      ensures ShiftedLeft(hs, i, size)[j] == hash(ShiftedLeft(ks, i, size)[j])
    {
      var j' := if j < i then j else j + 1;
      assert ShiftedLeft(hs, i, size)[j] == hs[j'];
      assert ShiftedLeft(ks, i, size)[j] == ks[j'];
    }
  }

  /** The live part after the copy: the old live part without position i. */
  lemma ShiftedLeftLive<T>(s: seq<T>, i: nat, size: nat)
    requires i < size <= |s|
    ensures ShiftedLeft(s, i, size)[..size - 1] == s[..size][..i] + s[..size][i + 1..]
  {
  }

  /** Close the gap at i by copying a[i+1..size) one slot down; a[size-1] keeps its old value. */
  method ArrayCopyDown<T>(a: array<T>, i: nat, size: nat)
    requires i < size <= a.Length
    modifies a
    ensures a[..] == ShiftedLeft(old(a[..]), i, size)
  {
    forall k | i <= k < size - 1 {
      a[k] := a[k + 1];
    }
    assert a[..] == ShiftedLeft(old(a[..]), i, size);
  }

  /**
   * The map. Slots at and above size hold whatever was there before (null after
   * construction, a stale copy after a remove); only `keys[0..size)` and
   * `values[0..size)` are entries.
   */
  class ArrayMap<K(==, 0), V(==, 0)> {
    /** The keys' hashCode(); null keys hash to 0 in the source, here that is part of `hash`. */
    const hash: K -> int32
    var size: nat
    const keys: array<K>
    const hashCodes: array<int32>
    const values: array<V>

    /** Three distinct arrays of one capacity, size within it, and every live hash cached correctly. */
    ghost predicate Valid()
      reads this, keys, hashCodes
    {
      && keys.Length == hashCodes.Length == values.Length
      && size <= keys.Length
      && keys as object != values as object
      && keys as object != hashCodes as object
      && hashCodes as object != values as object
      && (forall i :: 0 <= i < size ==> hashCodes[i] == hash(keys[i]))
    }

    ghost function Keys(): seq<K>
      reads this, keys
      requires size <= keys.Length
    {
      keys[..size]
    }

    ghost function Vals(): seq<V>
      reads this, values
      requires size <= values.Length
    {
      values[..size]
    }

    ghost function Abs(): State<K, V>
      reads this, keys, hashCodes, values
      requires Valid()
    {
      State(Keys(), Vals(), keys.Length)
    }

    /** What the entry set iterates over: `(keys[i], values[i])` for i < size. */
    ghost function Entries(): seq<(K, V)>
      reads this, keys, hashCodes, values
      requires Valid()
    {
      Zip(Keys(), Vals())
    }

    /** `ArrayMap(int capacity)`: empty, with three arrays of that length. */
    constructor (capacity: nat, hash: K -> int32)
      ensures Valid() && fresh(keys) && fresh(hashCodes) && fresh(values)
      ensures this.hash == hash && keys.Length == capacity && Keys() == [] && Vals() == []
    {
      this.hash := hash;
      keys := new K[capacity];
      hashCodes := new int32[capacity];
      values := new V[capacity];
      size := 0;
    }

    /**
     * The private `ArrayMap(K[] keys, V[] values)`: adopts both arrays, caches
     * every key's hash and counts every slot as an entry. Keys are not checked
     * for duplicates.
     */
    constructor FromArrays(keys: array<K>, values: array<V>, hash: K -> int32)
      requires keys.Length == values.Length && keys as object != values as object
      ensures Valid() && fresh(hashCodes)
      ensures this.keys == keys && this.values == values && this.hash == hash
      ensures Keys() == keys[..] && Vals() == values[..]
    {
      this.hash := hash;
      this.keys := keys;
      this.values := values;
      var codes := new int32[keys.Length];
      for i := 0 to keys.Length
        invariant forall j :: 0 <= j < i ==> codes[j] == hash(keys[j])
      {
        codes[i] := hash(keys[i]);
      }
      hashCodes := codes;
      size := keys.Length;
    }

    /**
     * The constructor `ArrayMap(keys, keyHashCodes, values)` that a row roll
     * hands its rows out through: it adopts all three arrays as they are, with
     * every slot an entry. The cached hashes must already be right.
     */
    constructor Sharing(keys: array<K>, hashCodes: array<int32>, values: array<V>, hash: K -> int32)
      requires keys.Length == hashCodes.Length == values.Length
      requires keys as object != values as object && keys as object != hashCodes as object
      requires hashCodes as object != values as object
      requires forall i :: 0 <= i < keys.Length ==> hashCodes[i] == hash(keys[i])
      ensures Valid()
      ensures this.keys == keys && this.hashCodes == hashCodes && this.values == values && this.hash == hash
      ensures Keys() == keys[..] && Vals() == values[..]
    {
      this.hash := hash;
      this.keys := keys;
      this.hashCodes := hashCodes;
      this.values := values;
      size := keys.Length;
    }

    /**
     * `same(aHash, a, bHash, b)`: the cached hashes agree and the keys are
     * equal. Identity and null tests collapse into value equality here.
     */
    static predicate Same(aHash: int32, a: K, bHash: int32, b: K)
    {
      aHash == bHash && a == b
    }

    /** `containsKey`: true exactly when the key is among the live keys. */
    method ContainsKey(key: K) returns (b: bool)
      requires Valid()
      ensures b <==> key in Keys()
    {
      var keyHash := hash(key);
      for i := 0 to size
        invariant key !in keys[..i]
      {
        if Same(keyHash, key, hashCodes[i], keys[i]) {
          assert keys[..size][i] == key;
          return true;
        }
      }
      assert keys[..size] == Keys();
      return false;
    }

    /** `containsValue`: true exactly when some live entry holds the value. */
    method ContainsValue(value: V) returns (b: bool)
      requires Valid()
      ensures b <==> value in Vals()
    {
      for i := 0 to size
        invariant value !in values[..i]
      {
        if value == values[i] {
          assert values[..size][i] == value;
          return true;
        }
      }
      assert values[..size] == Vals();
      return false;
    }

    /** `get`: the value of the first live entry with this key, None (null) if there is none. */
    method Get(key: K) returns (r: Option<V>)
      requires Valid()
      ensures r == Lookup(Keys(), Vals(), key)
    {
      var keyHash := hash(key);
      for i := 0 to size
        invariant key !in keys[..i]
      {
        if Same(keyHash, key, hashCodes[i], keys[i]) {
          assert keys[..size][..i] == keys[..i];
          IndexOfUnique(Keys(), key, i);
          return Some(values[i]);
        }
      }
      assert keys[..size] == Keys();
      return None;
    }

    /**
     * `put`: overwrite in place or append at size; the new state and the
     * returned previous value are those of PutSpec. Only the slot written
     * changes in the arrays; a failed put changes nothing.
     */
    method Put(key: K, value: V) returns (r: Result<Option<V>, MapError>)
      requires Valid()
      modifies this, keys, hashCodes, values
      ensures Valid()
      ensures match PutSpec(old(Abs()), key, value)
        case Success(p) => r == Success(p.previous) && Abs() == p.state
        case Failure(e) => r == Failure(e) && Abs() == old(Abs())
      ensures old(size) < size ==> keys[..] == old(keys[..])[old(size) := key]
      ensures size <= old(size) ==> keys[..] == old(keys[..]) && size == old(size)
    {
      var keyHash := hash(key);
      for i := 0 to size
        invariant key !in keys[..i]
      {
        if Same(keyHash, key, hashCodes[i], keys[i]) {
          assert keys[..size][..i] == keys[..i];
          IndexOfUnique(Keys(), key, i);
          r := Success(Some(values[i]));
          values[i] := value;
          return;
        }
      }
      assert keys[..size] == Keys();
      if size == keys.Length {
        return Failure(CapacityExceeded);
      }
      keys[size] := key;
      hashCodes[size] := keyHash;
      values[size] := value;
      size := size + 1;
      r := Success(None);
    }

    /**
     * `remove`: on a hit, shift all three arrays down over the entry and shrink
     * size, returning the removed value; on a miss change nothing. The new
     * state is that of RemoveSpec.
     */
    method Remove(key: K) returns (r: Option<V>)
      requires Valid()
      modifies this, keys, hashCodes, values
      ensures Valid()
      ensures RemoveSpec(old(Abs()), key) == Update(Abs(), r)
      ensures r.Some? ==> keys[..] == ShiftedLeft(old(keys[..]), IndexOf(old(Keys()), key).value, old(size))
      ensures r.None? ==> keys[..] == old(keys[..]) && size == old(size)
    {
      var keyHash := hash(key);
      for i := 0 to size
        invariant key !in keys[..i]
      {
        if Same(keyHash, key, hashCodes[i], keys[i]) {
          assert keys[..size][..i] == keys[..i];
          IndexOfUnique(Keys(), key, i);
          r := Some(values[i]);
          RemoveAt(i);
          return;
        }
      }
      assert keys[..size] == Keys();
      r := None;
    }

    /** What `remove` does once the key is found at i: three block copies and size - 1. */
    method RemoveAt(i: nat)
      requires Valid() && i < size
      modifies this, keys, hashCodes, values
      ensures Valid() && size == old(size) - 1
      ensures keys[..] == ShiftedLeft(old(keys[..]), i, old(size))
      ensures Keys() == old(Keys()[..i] + Keys()[i + 1..])
      ensures Vals() == old(Vals()[..i] + Vals()[i + 1..])
    {
      ghost var oldKeys, oldVals := Keys(), Vals();
      ShiftedHashes(keys[..], hashCodes[..], i, size, hash);
      ShiftedLeftLive(keys[..], i, size);
      ShiftedLeftLive(values[..], i, size);
      ArrayCopyDown(keys, i, size);
      ArrayCopyDown(hashCodes, i, size);
      ArrayCopyDown(values, i, size);
      size := size - 1;
      assert forall j :: 0 <= j < size ==> hashCodes[..][j] == hash(keys[..][j]);
      assert Keys() == oldKeys[..i] + oldKeys[i + 1..];
      assert Vals() == oldVals[..i] + oldVals[i + 1..];
    }

    /** `putAll`: put every entry of the argument, in its iteration order. */
    method PutAll(es: seq<(K, V)>) returns (r: Result<(), MapError>)
      requires Valid()
      modifies this, keys, hashCodes, values
      ensures Valid()
      ensures r.Success? <==> PutAllSpec(old(Abs()), es).Success?
      ensures r.Success? ==> Abs() == PutAllSpec(old(Abs()), es).value
      ensures r.Failure? ==> r.error == PutAllSpec(old(Abs()), es).error
      ensures Abs() == PutAllReached(old(Abs()), es)
    {
      for i := 0 to |es|
        invariant Valid()
        invariant PutAllSpec(old(Abs()), es) == PutAllSpec(Abs(), es[i..])
        invariant PutAllReached(old(Abs()), es) == PutAllReached(Abs(), es[i..])
      {
        ghost var before := Abs();
        var p := Put(es[i].0, es[i].1);
        if p.Failure? {
          assert PutAllSpec(before, es[i..]) == Failure(p.error);
          assert PutAllReached(before, es[i..]) == before;
          return Failure(p.error);
        }
        assert es[i..][1..] == es[i + 1..];
      }
      assert es[|es|..] == [];
      return Success(());
    }

    /** `clear`: no live entries; the arrays keep their contents. */
    method Clear()
      requires Valid()
      modifies this
      ensures Valid() && Keys() == [] && Entries() == []
      ensures keys[..] == old(keys[..]) && values[..] == old(values[..])
    {
      size := 0;
    }

    /**
     * The copy constructor `ArrayMap(Map m)`, given m's entries in its
     * iteration order: more than 64 entries is an error, otherwise a map of
     * capacity |m| holding m's entries in that order.
     */
    static method CopyOf(es: seq<(K, V)>, hash: K -> int32) returns (r: Result<ArrayMap<K, V>, MapError>)
      ensures |es| > MAX_CAPACITY <==> r.Failure?
      ensures r.Failure? ==> r.error == TooManyEntries(|es|)
      ensures r.Success? ==> fresh(r.value) && fresh(r.value.keys) && r.value.Valid() && r.value.keys.Length == |es|
      ensures r.Success? ==>
        PutAllSpec(State([], [], |es|), es).Success? && r.value.Abs() == PutAllSpec(State([], [], |es|), es).value
    {
      if |es| > MAX_CAPACITY {
        return Failure(TooManyEntries(|es|));
      }
      var m := new ArrayMap(|es|, hash);
      PutAllFits(m.Abs(), es);
      var ok := m.PutAll(es);
      return Success(m);
    }
  }

  /**
   * The entry iterator: a position into the arrays. `next()` advances and then
   * reads the slot before the new position, without consulting size.
   */
  class EntryIterator<K(==, 0), V(==, 0)> {
    const owner: ArrayMap<K, V>
    var position: nat

    constructor (owner: ArrayMap<K, V>)
      ensures this.owner == owner && position == 0
    {
      this.owner := owner;
      position := 0;
    }

    predicate HasNext()
      reads this, owner
    {
      position < owner.size
    }

    method Next() returns (r: Result<(K, V), MapError>)
      modifies this
      ensures position == old(position) + 1
      ensures old(position) < owner.keys.Length && old(position) < owner.values.Length
        ==> r == Success((owner.keys[old(position)], owner.values[old(position)]))
      ensures !(old(position) < owner.keys.Length && old(position) < owner.values.Length)
        ==> r == Failure(IndexOutOfBounds)
    {
      position := position + 1;
      if position - 1 < owner.keys.Length && position - 1 < owner.values.Length {
        r := Success((owner.keys[position - 1], owner.values[position - 1]));
      } else {
        r := Failure(IndexOutOfBounds);
      }
    }
  }

  /**
   * `for (Entry e : map.entrySet())`: iterating with hasNext/next yields exactly
   * the live entries, in order.
   */
  method EntryList<K(==, 0), V(==, 0)>(owner: ArrayMap<K, V>) returns (es: seq<(K, V)>)
    requires owner.Valid()
    ensures es == owner.Entries()
  {
    var it := new EntryIterator(owner);
    ghost var ks, vs := owner.Keys(), owner.Vals();
    es := [];
    while it.HasNext()
      modifies it
      invariant it.owner == owner && it.position <= |ks|
      invariant |es| == it.position
      invariant forall j :: 0 <= j < |es| ==> es[j] == (ks[j], vs[j])
      decreases owner.size - it.position
    {
      var e := it.Next();
      es := es + [e.value];
    }
  }
}

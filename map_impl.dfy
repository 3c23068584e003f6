/**
 * A fixed-capacity hash map with separate chaining (data_structures::map::MapImpl).
 *
 * The table owns `capacity` buckets; a key's bucket is its hash modulo the
 * capacity, and each bucket is the sequence of the key/value pairs put into it,
 * in insertion order. Equal keys are not merged: a second Put of the same key
 * appends a second entry, and lookups see the earliest one.
 */
module Map {
  import opened Maybe

  /** An unsigned 32-bit integer (the source's uint32_t). */
  newtype u32 = x: int | 0 <= x < 0x1_0000_0000

  /** A stored key/value pair. */
  datatype Entry<K, V> = Entry(key: K, value: V)

  /** The entries that share one bucket index, oldest first. */
  type Bucket<K, V> = seq<Entry<K, V>>

  // ---------------------------------------------------------------------------
  // Bucket-level operations: the scan-and-compare that Get and Remove perform
  // on the key's bucket, and the entry count that Size reports.
  // ---------------------------------------------------------------------------

  /** The position of the earliest entry of `b` whose key is `key`; `|b|` if there is none. */
  function FirstIndex<K(==), V>(b: Bucket<K, V>, key: K): (j: nat)
    ensures j <= |b|
    ensures j < |b| ==> b[j].key == key
    ensures forall j' :: 0 <= j' < j ==> b[j'].key != key
  {
    if |b| == 0 then 0
    else if b[0].key == key then 0
    else 1 + FirstIndex(b[1..], key)
  }

  /** The contract of FirstIndex pins down its result. */
  lemma FirstIndexUnique<K, V>(b: Bucket<K, V>, key: K, j: nat)
    requires j <= |b|
    requires j < |b| ==> b[j].key == key
    requires forall j' :: 0 <= j' < j ==> b[j'].key != key
    ensures FirstIndex(b, key) == j
  {
  }

  /** The value of the earliest entry of `b` whose key is `key`, if there is one. */
  function Lookup<K(==), V>(b: Bucket<K, V>, key: K): (r: Maybe<V>)
    ensures r.None? <==> forall j :: 0 <= j < |b| ==> b[j].key != key
    ensures r.Some? ==>
              exists j :: 0 <= j < |b| && b[j] == Entry(key, r.value) &&
                          forall j' :: 0 <= j' < j ==> b[j'].key != key
  {
    var j := FirstIndex(b, key);
    if j < |b| then Some(b[j].value) else None
  }

  /** `b` without its earliest entry whose key is `key`, order kept; `b` itself if there is none. */
  function RemoveFirst<K(==), V>(b: Bucket<K, V>, key: K): (r: Bucket<K, V>)
    ensures Lookup(b, key).None? ==> r == b
    ensures Lookup(b, key).Some? ==>
              exists j :: 0 <= j < |b| && b[j] == Entry(key, Lookup(b, key).value) &&
                          (forall j' :: 0 <= j' < j ==> b[j'].key != key) &&
                          r == b[..j] + b[j + 1..]
  {
    var j := FirstIndex(b, key);
    if j < |b| then b[..j] + b[j + 1..] else b
  }

  /** The number of entries of `b` whose key is `key`. */
  ghost function KeyCount<K, V>(b: Bucket<K, V>, key: K): (n: nat)
    ensures n <= |b|
    ensures n == 0 <==> forall j :: 0 <= j < |b| ==> b[j].key != key
  {
    if |b| == 0 then 0
    else (if b[0].key == key then 1 else 0) + KeyCount(b[1..], key)
  }

  /** Occurrences of a key add up over concatenation. */
  lemma {:induction false} KeyCountConcat<K, V>(a: Bucket<K, V>, b: Bucket<K, V>, key: K)
    ensures KeyCount(a + b, key) == KeyCount(a, key) + KeyCount(b, key)
  {
    if |a| == 0 {
      assert a + b == b;
    } else {
      assert (a + b)[1..] == a[1..] + b;
      KeyCountConcat(a[1..], b, key);
    }
  }

  /** The total number of entries over all buckets. */
  function Count<K, V>(bs: seq<Bucket<K, V>>): (n: nat)
    ensures n == 0 <==> forall i :: 0 <= i < |bs| ==> |bs[i]| == 0
    ensures forall i :: 0 <= i < |bs| ==> |bs[i]| <= n
  {
    if |bs| == 0 then 0
    else
      var rest := Count(bs[1..]);
      assert forall i :: 1 <= i < |bs| ==> bs[i] == bs[1..][i - 1];
      |bs[0]| + rest
  }

  /** Replacing one bucket changes the total by the difference in that bucket's length. */
  lemma {:induction false} CountUpdate<K, V>(bs: seq<Bucket<K, V>>, i: nat, b: Bucket<K, V>)
    requires i < |bs|
    ensures Count(bs[i := b]) == Count(bs) - |bs[i]| + |b|
  {
    if i == 0 {
      assert bs[i := b][1..] == bs[1..];
    } else {
      assert bs[i := b][1..] == bs[1..][i - 1 := b];
      CountUpdate(bs[1..], i - 1, b);
    }
  }

  /** Appending an entry leaves an earlier match in place and otherwise may supply the match. */
  lemma LookupAppend<K, V>(b: Bucket<K, V>, e: Entry<K, V>, key: K)
    ensures Lookup(b + [e], key) ==
            if Lookup(b, key).Some? then Lookup(b, key)
            else if e.key == key then Some(e.value)
            else None
  {
    var j := FirstIndex(b, key);
    FirstIndexUnique(b + [e], key, if j == |b| && e.key != key then |b| + 1 else j);
  }

  /** Appending an entry adds one occurrence of its own key and none of any other. */
  lemma KeyCountAppend<K, V>(b: Bucket<K, V>, e: Entry<K, V>, key: K)
    ensures KeyCount(b + [e], key) == KeyCount(b, key) + (if e.key == key then 1 else 0)
  {
    KeyCountConcat(b, [e], key);
    assert [e][1..] == [];
  }

  /** Removing the first entry for `key` takes exactly one occurrence of `key` and none of any other key. */
  lemma RemoveFirstCounts<K, V>(b: Bucket<K, V>, key: K, k: K)
    ensures KeyCount(RemoveFirst(b, key), k) ==
            KeyCount(b, k) - (if k == key && Lookup(b, key).Some? then 1 else 0)
    ensures |RemoveFirst(b, key)| == |b| - (if Lookup(b, key).Some? then 1 else 0)
  {
    var j := FirstIndex(b, key);
    if j < |b| {
      assert b == b[..j] + ([b[j]] + b[j + 1..]);
      KeyCountConcat(b[..j], [b[j]] + b[j + 1..], k);
      KeyCountConcat([b[j]], b[j + 1..], k);
      KeyCountConcat(b[..j], b[j + 1..], k);
      assert [b[j]][1..] == [];
    }
  }

  /** Removing the first entry for `key` does not change what any other key looks up. */
  lemma RemoveFirstOtherKey<K, V>(b: Bucket<K, V>, key: K, k: K)
    requires k != key
    ensures Lookup(RemoveFirst(b, key), k) == Lookup(b, k)
  {
    var j := FirstIndex(b, key);
    if j < |b| {
      var r := b[..j] + b[j + 1..];
      var i := FirstIndex(b, k);
      assert forall n :: 0 <= n < j ==> r[n] == b[n];
      assert forall n :: j <= n < |r| ==> r[n] == b[n + 1];
      if i < j {
        FirstIndexUnique(r, k, i);
      } else {
        assert i != j;
        FirstIndexUnique(r, k, i - 1);
      }
    }
  }

  /** Removing the first entry for `key` takes that one entry out of the bucket's multiset. */
  lemma RemoveFirstMultiset<K, V>(b: Bucket<K, V>, key: K)
    requires Lookup(b, key).Some?
    ensures multiset(RemoveFirst(b, key)) + multiset{Entry(key, Lookup(b, key).value)} == multiset(b)
    ensures forall e :: e in RemoveFirst(b, key) ==> e in b
  {
    var j := FirstIndex(b, key);
    assert b == b[..j] + [b[j]] + b[j + 1..];
    forall e | e in RemoveFirst(b, key)
      ensures e in b
    {
      assert e in multiset(RemoveFirst(b, key));
    }
  }

  /** The remainder of a non-negative number is below the divisor, and is the number itself when that is already below. */
  lemma ModInRange(h: int, c: int)
    requires 0 <= h && 0 < c
    ensures 0 <= h % c < c
    ensures h < c ==> h % c == h
  {
  }

  // ---------------------------------------------------------------------------
  // The table.
  // ---------------------------------------------------------------------------

  class MapImpl<K(==,!new), V> {
    /** The caller-supplied hash function. Keys are compared with `==`. */
    const hash: K -> u32
    /** The number of buckets, fixed at construction. */
    const capacity: u32
    /** The buckets. The array is never replaced; its elements are. */
    const entries: array<Bucket<K, V>>

    /** Object invariant: `capacity` buckets, each entry stored in its key's bucket. */
    ghost predicate Valid()
      reads entries
    {
      && capacity > 0
      && entries.Length == capacity as int
      && forall i, e :: 0 <= i < entries.Length && e in entries[i] ==> GetIndex(e.key) as int == i
    }

    /** The bucket that Put, Get and Remove all use for `key`. */
    ghost function HomeBucket(key: K): Bucket<K, V>
      reads entries
      requires Valid()
    {
      entries[GetIndex(key)]
    }

    /** Some bucket of the table holds an entry for `key`. */
    ghost predicate Stored(key: K)
      reads entries
    {
      exists i, j :: 0 <= i < entries.Length && 0 <= j < |entries[i]| && entries[i][j].key == key
    }

    /** How many entries for `key` the table holds (duplicates accumulate). */
    ghost function Occurrences(key: K): nat
      reads entries
      requires Valid()
    {
      KeyCount(HomeBucket(key), key)
    }

    /** An empty table of `capacity` buckets. */
    constructor (hash: K -> u32, capacity: u32)
      requires capacity > 0
      ensures Valid() && fresh(entries)
      ensures this.hash == hash && this.capacity == capacity
      ensures forall i :: 0 <= i < entries.Length ==> entries[i] == []
      ensures Size() == 0
      ensures forall k :: Get(k) == None
    {
      this.hash := hash;
      this.capacity := capacity;
      entries := new Bucket<K, V>[capacity as int](_ => []);
    }

    /** The total number of entries stored, over all buckets. */
    function Size(): (n: nat)
      reads entries
      ensures n == 0 <==> forall i :: 0 <= i < entries.Length ==> entries[i] == []
      ensures forall i :: 0 <= i < entries.Length ==> |entries[i]| <= n
    {
      Count(entries[..])
    }

    /** Appends `(key, value)` to the key's bucket, without looking for an equal key. */
    method Put(key: K, value: V)
      requires Valid()
      modifies entries
      ensures Valid()
      ensures entries[..] == old(entries[..])[GetIndex(key) as int := old(HomeBucket(key)) + [Entry(key, value)]]
      ensures Size() == old(Size()) + 1
      ensures Occurrences(key) == old(Occurrences(key)) + 1
      ensures Get(key) == if old(Get(key)).Some? then old(Get(key)) else Some(value)
      ensures forall k :: k != key ==> Get(k) == old(Get(k))
    {
      var index := GetIndex(key);
      ghost var before := entries[..];
      entries[index] := entries[index] + [Entry(key, value)];
      CountUpdate(before, index as int, entries[index]);
      LookupAppend(before[index], Entry(key, value), key);
      KeyCountAppend(before[index], Entry(key, value), key);
      forall k | k != key
        ensures Get(k) == old(Get(k))
      {
        if GetIndex(k) == index {
          LookupAppend(before[index], Entry(key, value), k);
        }
      }
    }

    /** Removes the earliest entry for `key`; reports whether there was one. */
    method Remove(key: K) returns (removed: bool)
      requires Valid()
      modifies entries
      ensures Valid()
      ensures removed == old(Get(key)).Some?
      ensures entries[..] == old(entries[..])[GetIndex(key) as int := RemoveFirst(old(HomeBucket(key)), key)]
      ensures !removed ==> entries[..] == old(entries[..])
      ensures removed ==>
                multiset(HomeBucket(key)) + multiset{Entry(key, old(Get(key)).value)} ==
                multiset(old(HomeBucket(key)))
      ensures Size() == old(Size()) - (if removed then 1 else 0)
      ensures Occurrences(key) == old(Occurrences(key)) - (if removed then 1 else 0)
      ensures forall k :: k != key ==> Get(k) == old(Get(k))
    {
      var index := GetIndex(key);
      var bucket := entries[index];
      if |bucket| == 0 {
        return false;
      }
      if Lookup(bucket, key).None? {
        return false;
      }
      ghost var before := entries[..];
      entries[index] := RemoveFirst(bucket, key);
      removed := true;
      CountUpdate(before, index as int, entries[index]);
      RemoveFirstCounts(bucket, key, key);
      RemoveFirstMultiset(bucket, key);
      forall k | k != key
        ensures Get(k) == old(Get(k))
      {
        if GetIndex(k) == index {
          RemoveFirstOtherKey(bucket, key, k);
        }
      }
    }

    /** The value of the earliest entry put for `key`, or None if the table holds none. */
    function Get(key: K): (r: Maybe<V>)
      reads entries
      requires Valid()
      ensures r.None? <==> !Stored(key)
      ensures r.None? <==> Occurrences(key) == 0
      ensures r.Some? ==>
                var b := HomeBucket(key);
                exists j :: 0 <= j < |b| && b[j] == Entry(key, r.value) &&
                            forall j' :: 0 <= j' < j ==> b[j'].key != key
    {
      var b := entries[GetIndex(key)];
      assert Stored(key) ==> exists j :: 0 <= j < |b| && b[j].key == key;
      Lookup(b, key)
    }

    /** The bucket index of `key`: its hash reduced modulo the capacity. */
    function GetIndex(key: K): (index: u32)
      requires capacity > 0
      ensures index < capacity
      ensures hash(key) < capacity ==> index == hash(key)
    {
      var h, c := hash(key) as int, capacity as int;
      ModInRange(h, c);
      (h % c) as u32
    }
  }

  // ---------------------------------------------------------------------------
  // The source as written, where it departs from the behaviour modelled above.
  // ---------------------------------------------------------------------------

  /** The conversion of a uint32_t to a 32-bit int (two's complement), as in `int index = GetIndex(key)`. */
  function Int32Of(x: u32): (r: int)
    ensures -0x8000_0000 <= r < 0x8000_0000
    ensures r < 0 <==> x >= 0x8000_0000
    ensures (r - x as int) % 0x1_0000_0000 == 0
  {
    if x < 0x8000_0000 then x as int else x as int - 0x1_0000_0000
  }

  /** With more than 2^31 buckets the index stored in an `int` can be negative, although GetIndex is in range. */
  lemma SignedIndexCanBeNegative<K(!new), V>(m: MapImpl<K, V>, key: K)
    requires m.capacity == 0xFFFF_FFFF && m.hash(key) == 0x8000_0000
    ensures m.GetIndex(key) < m.capacity
    ensures Int32Of(m.GetIndex(key)) < 0
  {
  }

  /** Get as written: the value of the bucket's first pair, whatever its key. */
  function GetAsWritten<K(==), V>(b: Bucket<K, V>, key: K): (r: Maybe<V>)
    ensures r.None? <==> |b| == 0
    ensures |b| != 0 ==> r == Lookup(b, b[0].key)
  {
    if |b| == 0 then None else Some(b[0].value)
  }

  /** Two colliding keys: Get as written answers for "b" with the value put for "a". */
  lemma CollisionBlindGet()
    ensures GetAsWritten([Entry("a", 1), Entry("b", 2)], "b") == Some(1)
    ensures Lookup([Entry("a", 1), Entry("b", 2)], "b") == Some(2)
  {
  }

  /** Remove as written: reports success whenever the key's bucket is non-empty. */
  function RemoveResultAsWritten<K(==), V>(b: Bucket<K, V>, key: K): (r: bool)
    ensures r <==> |b| != 0
    ensures Lookup(b, key).Some? ==> r
  {
    |b| != 0
  }

  /** A key absent from a non-empty bucket: Remove as written reports success. */
  lemma RemoveReportsAbsentKey()
    ensures RemoveResultAsWritten([Entry("a", 1)], "b")
    ensures Lookup([Entry("a", 1)], "b").None?
    ensures RemoveFirst([Entry("a", 1)], "b") == [Entry("a", 1)]
  {
  }
}

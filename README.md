# MapImpl: a fixed-capacity chained hash map, in Dafny

This project models `data_structures::map::MapImpl<KeyType, ValueType>` from
`os-spring-2019/data_structures/map/map_impl.h`. It is a hash map with a fixed
number of buckets (`capacity`) and separate chaining. Each bucket is a sequence
of key/value pairs in insertion order. A key's bucket is `hash(key) % capacity`,
and `Put`, `Get` and `Remove` all locate the key the same way.

Files:

- `maybe.dfy`: module `Maybe`, the optional value that `Get` returns (`None` or
  `Some(value)`). The source only builds it empty (lines 73, 77) or holding a
  value (line 80). The accessors `HasValue` and `Value` are how a caller reads
  it; they come from no source line, because `maybe.h` is not part of this model.
- `map_impl.dfy`: module `Map`.
  - `u32` is the source's `uint32_t`. `Entry` is the stored pair.
  - `FirstIndex`, `Lookup`, `RemoveFirst`, `KeyCount` and `Count` are the bucket
    scans and the entry count, with lemmas about them.
  - Class `MapImpl` holds the hash function, the capacity and the bucket array
    `entries: array<seq<Entry<K, V>>>`, which `Put` and `Remove` update in
    place. `Valid()` is the object invariant. It requires `capacity` buckets, and
    every entry must sit in the bucket `GetIndex` gives for its key.
  - The members at the end of the file model the source as written, where it
    departs from the behaviour modelled (see "## Findings").
- `map_client.dfy`: module `MapClient`, two client methods. With one bucket,
  they show what callers can prove from the contracts alone. Colliding keys are
  both retrievable. A duplicate key is seen and removed earliest-first.

The source does not compile. Where the code's meaning is unclear, the model
takes these readings:

- **Bucket array.** The constructor dereferences an uninitialised pointer
  (line 31). The model allocates a fresh array of `capacity` empty buckets and
  requires `capacity > 0`.
- **Empty buckets.** The comparisons of a bucket with `NULL` (lines 42, 54, 71)
  mean "the bucket is empty".
- **Size.** `entries.size()` (line 36) is read as the total number of entries
  over all buckets, not the number of buckets.
- **Get.** As written, Get returns the value of the bucket's pair without
  comparing keys (line 80). The model scans the bucket and returns the value of
  the first entry whose key equals the query. This deliberately corrects the
  source; see "## Findings".
- **Remove.** As written, Remove calls `erase()` without naming an element and
  returns true for any non-empty bucket (lines 63-65). The model removes the
  first entry whose key equals the query, keeping the others in order. It
  returns true iff such an entry existed.
- **Duplicate keys.** Put does not check for an equal key (line 46). Equal keys
  accumulate, `Get` returns the earliest one, and `Remove` takes out one entry at
  a time. Removing every matching entry would be another reading. The model
  removes one entry per call, as the single `erase` at line 64 does.
- **Key comparison.** The key comparer is replaced by Dafny equality on `K`.
  With that equality, any hash function is consistent with key equality, so the
  caller's duty that equal keys hash alike always holds. The key type is `K(!new)`
  because keys are copied values.

## Model

| member | source | states |
|---|---|---|
| `Map.MapImpl.GetIndex` | os-spring-2019/data_structures/map/map_impl.h:84-88 | for capacity > 0, the index is below the capacity for every hash value, and it equals the hash when the hash is already below the capacity |
| `Map.MapImpl.constructor` | os-spring-2019/data_structures/map/map_impl.h:27-32 | keeps the given hash and capacity, allocates a fresh array of exactly `capacity` empty buckets, establishes the invariant; Size is 0 and Get finds nothing for every key |
| `Map.MapImpl.Size` | os-spring-2019/data_structures/map/map_impl.h:34-37 | the total entry count is 0 iff every bucket is empty, and no bucket holds more entries than the total |
| `Map.Count` | os-spring-2019/data_structures/map/map_impl.h:34-37 | the sum of bucket lengths is 0 iff every bucket is empty and bounds each bucket's length |
| `Map.CountUpdate` | os-spring-2019/data_structures/map/map_impl.h:46 | replacing one bucket changes the total count by exactly the change in that bucket's length |
| `Map.MapImpl.Put` | os-spring-2019/data_structures/map/map_impl.h:39-48 | appends `(key, value)` to the end of bucket `GetIndex(key)` and leaves every other bucket unchanged, keeps the placement invariant, Size grows by one and the key's occurrence count by one even if the key was present; afterwards Get(key) is the earlier value if there was one and `value` otherwise, and Get of every other key is unchanged |
| `Map.KeyCount` | os-spring-2019/data_structures/map/map_impl.h:46 | the number of entries for a key is at most the bucket length and is 0 iff no entry has that key |
| `Map.KeyCountConcat` | os-spring-2019/data_structures/map/map_impl.h:46 | occurrence counts add up over concatenated buckets |
| `Map.KeyCountAppend` | os-spring-2019/data_structures/map/map_impl.h:46 | appending an entry adds one occurrence of its own key and none of any other |
| `Map.LookupAppend` | os-spring-2019/data_structures/map/map_impl.h:39-48 | after an append, a lookup still finds an earlier match; otherwise it finds the appended entry if its key matches, and nothing if not, even when other keys collide in the bucket |
| `Map.FirstIndex` | os-spring-2019/data_structures/map/map_impl.h:79-80 | the scan stops at the first entry whose key equals the query, no earlier entry has that key, and it returns the bucket length if no entry matches |
| `Map.FirstIndexUnique` | os-spring-2019/data_structures/map/map_impl.h:79-80 | any position with those properties is the one the scan returns |
| `Map.Lookup` | os-spring-2019/data_structures/map/map_impl.h:71-80 | None iff no entry of the bucket has the key (including an empty bucket); otherwise the value of an entry with that key, and no earlier entry has that key |
| `Map.MapImpl.Get` | os-spring-2019/data_structures/map/map_impl.h:68-81 | reads only the table; None iff no bucket holds an entry for the key (via the placement invariant), equivalently iff the key occurs 0 times; otherwise the value of the earliest-inserted entry for the key in its bucket |
| `Map.RemoveFirst` | os-spring-2019/data_structures/map/map_impl.h:63-64 | with no match the bucket is returned unchanged; otherwise the first entry with the key is cut out and the rest keep their order |
| `Map.RemoveFirstCounts` | os-spring-2019/data_structures/map/map_impl.h:63-65 | removal takes exactly one occurrence of the removed key and none of any other key, and shortens the bucket by one iff there was a match |
| `Map.RemoveFirstOtherKey` | os-spring-2019/data_structures/map/map_impl.h:63-65 | removing the first entry for one key leaves the lookups of every other key unchanged |
| `Map.RemoveFirstMultiset` | os-spring-2019/data_structures/map/map_impl.h:63-65 | when there is a match, the bucket loses exactly the entry `(key, found value)` as a multiset, and every remaining entry was in the bucket before |
| `Map.MapImpl.Remove` | os-spring-2019/data_structures/map/map_impl.h:50-66 | returns true iff Get(key) found something beforehand; with no match (including an empty bucket) nothing changes; otherwise only bucket `GetIndex(key)` changes, losing exactly one entry for the key; invariant kept, Size and the key's occurrence count drop by one, and Get of every other key is unchanged |
| `Map.Int32Of` | os-spring-2019/data_structures/map/map_impl.h:41 | the conversion of the unsigned index to `int` lies in the 32-bit signed range, is negative iff the index is at least 2^31, and is congruent to the index modulo 2^32 |
| `Map.SignedIndexCanBeNegative` | os-spring-2019/data_structures/map/map_impl.h:52-62 | with capacity 0xFFFF_FFFF and a hash of 0x8000_0000, GetIndex is in range but its value stored in an `int` is negative |
| `Map.GetAsWritten` | os-spring-2019/data_structures/map/map_impl.h:71-80 | Get as written: None iff the key's bucket is empty; otherwise, whatever the key asked for, the answer the scan gives for the key of the bucket's first pair |
| `Map.RemoveResultAsWritten` | os-spring-2019/data_structures/map/map_impl.h:53-65 | Remove's result as written: true iff the key's bucket is non-empty, so it is true whenever the key is present, and also when it is absent from a non-empty bucket |
| `Map.CollisionBlindGet` | os-spring-2019/data_structures/map/map_impl.h:79-80 | for the bucket [("a",1), ("b",2)], Get as written answers Some(1) for any key, while the scan answers Some(2) for "b" |
| `Map.RemoveReportsAbsentKey` | os-spring-2019/data_structures/map/map_impl.h:53-65 | for the bucket [("a",1)], Remove as written reports success for "b", while the scan finds nothing and removal leaves the bucket unchanged |

## Findings

| source | as written | input that shows it | evidently intended | confidence | as-written member | corrected member |
|---|---|---|---|---|---|---|
| os-spring-2019/data_structures/map/map_impl.h:41 | `int index = GetIndex(key)` stores the unsigned index in a signed `int`, and `entries[index]` is accessed before the `index < 0` test (the same in Remove and Get, lines 52-59 and 70-75) | capacity 0xFFFF_FFFF, a key hashing to 0x8000_0000: the index 2^31 becomes -2^31 | the unsigned index, in `[0, capacity)`, is used directly | not executed; the conversion is implementation-defined before C++20 and wraps in C++20 | `Map.SignedIndexCanBeNegative` | `Map.MapImpl.GetIndex` |
| os-spring-2019/data_structures/map/map_impl.h:80 | Get returns the value of the bucket's pair without comparing keys | capacity 1, Put("a",1), Put("b",2), then Get("b") answers 1 | return the value of the first entry whose key equals the query, or None | not executed; the line does not compile as written | `Map.CollisionBlindGet` | `Map.MapImpl.Get` |
| os-spring-2019/data_structures/map/map_impl.h:63-65 | Remove reports success whenever the key's bucket is non-empty | capacity 1, Put("a",1), then Remove("b") answers true | true iff an entry with the key existed and was removed | not executed; `erase()` without an argument does not compile | `Map.RemoveReportsAbsentKey` | `Map.MapImpl.Remove` |

## Left out

- The key comparer and the `std::function` typedefs (lines 16-17, 19) are replaced by Dafny equality on keys and a function value `K -> u32`.
- Raw-pointer allocation with `new` and the `NULL` tests (lines 24, 31, 42-45) are C++ memory management. Buckets are sequences with a natural empty state, so no null bucket can be represented. The source frees nothing (it has no destructor and no `delete`), so its allocations leak; the model has no notion of freeing memory.
- The `index < 0` tests (lines 59-62, 75-78) are not modelled. The model's index is unsigned and always in range. The first row of the findings explains why the tests come too late in the source.
- `maybe.h` is not part of this model. `Maybe` is a plain datatype with the two forms the source constructs (lines 73, 77, 80); its `HasValue` and `Value` accessors are the model's own.
- Map.MapImpl.Size: returns an unbounded `nat`. The source's `int` result would overflow past 2^31 - 1 entries, and that is not modelled.
- Resizing, rehashing, iteration and thread safety are not modelled, because the source has none of them.

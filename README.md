# String-keyed hash table with separate chaining

This project models the hash table declared in `include/hashtable.h`. It maps
string keys to `size_t` values. The table (`hashtable_t`) owns a bucket array
(`table`), its `capacity`, the number of live entries (`length`) and a hashing
function `hashing_func(key, capacity)`. Each bucket holds a chain of
`ht_entry` nodes (key, value, next). The table grows by `ADD_CAP` = 8 buckets
and rehashes every entry once an insertion takes the load factor
`length / capacity` above `LOAD_FACTOR` = 0.75.

The model states the behaviour that the declarations and doc comments of
`include/hashtable.h` promise; the function bodies are not modelled.

- `chains.dfy`, module `Chains`: an entry (`Entry`), a chain as a sequence of
  entries (`Chain`), and `Lookup`, which returns the first entry with a given key.
  The lemmas say how `Lookup` changes when an entry is appended, overwritten or
  unlinked.
- `buckets.dfy`, module `Buckets`: the bucket array as a value. `WellFormed(bs,
  hash, m)` is the table invariant. It says that:
  - every entry sits in the bucket its key hashes to under the current capacity;
  - no two entries share a key;
  - a lookup in a key's bucket gives exactly what the map `m` holds for that key;
  - the number of entries across all chains (`TotalSize`) is the number of keys.

  One lemma per operation step shows that the step keeps this invariant.
- `hashtable.dfy`, module `HashTables`: class `HashTable`. Its real fields are
  `table: array<Chain>`, `capacity`, `length` and the constant `hashingFunc`.
  Its ghost map `Contents` is the abstract value. `Valid()` is
  `WellFormed(table[..], hashingFunc, Contents)` plus four facts: the ghost
  footprint `Repr` is `{this, table}`, `capacity == table.Length`,
  `length == |Contents|`, and the load bound `4 * length <= 3 * capacity`.
  The constructor `Init` and the methods `Rehash`, `Set`, `Get`, `Remove` and
  `Clear` work on these fields; the last five walk the buckets or a chain in
  loops. The module-level `Purge` calls `Clear`. Each is proved against
  `Contents`. Three small client methods state the promises that follow from
  combining the operations.

The hashing function is a parameter of `Init` with the precondition
`HashInRange`: for every positive capacity, its result is below that capacity.
The header passes the capacity to `hashing_func`, so its result is taken as the
bucket index itself. A miss in `Get` and `Remove` returns 0, as the header
states. A stored 0 and a missing key therefore give the same result.

## Model

| member | source | states |
|---|---|---|
| HashTables.HashTable.Init | include/hashtable.h:28-32 | the new table is valid and empty: no pairs, `length` 0, `capacity` is the initial capacity ADD_CAP, fresh bucket array |
| HashTables.HashTable.Rehash | include/hashtable.h:34-39 | capacity grows by exactly ADD_CAP into a fresh array; every key-value pair and `length` are preserved; every entry now sits in bucket `hashingFunc(key, capacity)` for the new capacity; the invariant is restored |
| HashTables.HashTable.Set | include/hashtable.h:41-48 | contents become `old(Contents)[key := value]`; `length` grows by one only for a new key (an existing key is overwritten in place, with no second entry); capacity grows by ADD_CAP exactly when a new key pushes `4*length` above `3*capacity`, and the array is kept otherwise; afterwards `4*length <= 3*capacity` |
| HashTables.HashTable.Get | include/hashtable.h:50-57 | returns the stored value of a present key and 0 for an absent key; changes nothing |
| HashTables.HashTable.Remove | include/hashtable.h:59-66 | a present key: returns its value, the key is gone, every other key keeps its value, `length` drops by one; an absent key: returns 0 and buckets, contents, `length` and capacity are unchanged |
| HashTables.HashTable.Clear | include/hashtable.h:68-73 | no pairs remain, `length` is 0, capacity and bucket array are unchanged, invariant kept |
| HashTables.Purge | include/hashtable.h:75-80 | clears the table (no pairs, `length` 0, capacity unchanged) and returns the null handle the caller's pointer is set to |
| HashTables.ThresholdScenario | include/hashtable.h:12-13 | at capacity 8, the capacity after a sixth distinct key (load exactly 0.75) is still 8, after a seventh it is 16, after an eighth still 16; the contents are the old ones plus the three new pairs |
| HashTables.SetThenGet | include/hashtable.h:41-57 | `get` right after `set(key, value)` returns `value` |
| HashTables.SetRemoveThenMiss | include/hashtable.h:41-66 | after `set(key, value)`, `remove(key)` returns `value` and a following `get(key)` misses with 0 |
| HashTables.OverwriteKeepsLength | include/hashtable.h:41-57 | setting the same key twice counts it once in `length`, and `get` returns the second value |
| Buckets.InsertNew | include/hashtable.h:41-48 | appending an absent key to its bucket keeps the invariant, with the map extended by that pair and one more entry |
| Buckets.ReplaceExisting | include/hashtable.h:41-48 | overwriting the value of an entry found in its key's bucket keeps the invariant with the map updated at that key; the key was present |
| Buckets.RemoveExisting | include/hashtable.h:59-66 | unlinking the entry of a key found in its bucket keeps the invariant with that key removed from the map; the entry's value is the map's value |
| Buckets.MissingKey | include/hashtable.h:50-66 | a key that no entry of its bucket carries is absent from the table's map |
| Buckets.EntryInContents | include/hashtable.h:15-26 | every entry stored in any bucket is a pair of the table's map |
| Buckets.KeysUnique | include/hashtable.h:15-26 | two entries anywhere in the table with the same key are the same entry |
| Buckets.EmptyWellFormed | include/hashtable.h:68-73 | buckets that are all empty represent the empty map with no entries |
| Buckets.TotalSizeUpdate | include/hashtable.h:21-26 | replacing one bucket changes the total entry count by the difference in that bucket's length |
| Buckets.TotalSizeEmpty | include/hashtable.h:68-73 | all-empty buckets hold no entries |
| Buckets.MoveEntry | include/hashtable.h:34-39 | moving the next entry of the old bucket being rehashed into its new bucket keeps the new array well formed, adds a key that was not yet moved, and advances the rehash progress by one entry |
| Buckets.BucketMoved | include/hashtable.h:34-39 | after the whole chain of old bucket `i` is moved, exactly the pairs of buckets before `i + 1` are in the new array |
| Buckets.AllMoved | include/hashtable.h:34-39 | after every old bucket is moved, the new array holds exactly the table's pairs |
| Chains.LookupNone | include/hashtable.h:15-19 | a chain lookup misses if and only if no entry of the chain carries the key |
| Chains.LookupHit | include/hashtable.h:15-19 | in a chain with distinct keys, looking up an entry's key returns that entry's value |
| Chains.PrefixMiss | include/hashtable.h:15-19 | in a chain with distinct keys, the entries before an entry do not carry its key |
| Chains.LookupAppend | include/hashtable.h:41-48 | appending an entry to a chain changes only the lookup of its key, and only when the chain lacked it |
| Chains.LookupReplace | include/hashtable.h:41-48 | overwriting an entry's value changes the lookup of its key to the new value and no other lookup |
| Chains.LookupRemove | include/hashtable.h:59-66 | unlinking an entry from a chain with distinct keys makes its key miss and changes no other lookup |

## Left out

- `hashtable_print` (include/hashtable.h:82-87) is not modelled: it only writes a listing to an output stream.
- The stderr message that `hashtable_get` and `hashtable_remove` print on a miss is not modelled; only the 0 return value is.
- Allocation failure (of the table, the bucket array, an entry or a key copy) is not modelled: every allocation succeeds.
- Purge: the model clears the table and returns the null handle. Freeing the bucket array and the table record has no counterpart in the model.
- The default hashing function is not modelled. The model takes any deterministic function whose result is below the capacity.
- `LOAD_FACTOR` is the float `0.75f`. The model compares the exact ratio (`4 * length > 3 * capacity`), so float rounding of `length / capacity` is not modelled.
- `capacity` and `length` are `size_t` in the source. The model uses unbounded naturals, so 64-bit wrap-around of these counters is not modelled. Values are bounded to the `size_t` range.
- The initial capacity is taken to be ADD_CAP (8).
- The model appends new entries at the tail of the chain, and a rehash appends the moved entries in old bucket and chain order.
- `dynamic_array.h` and `helper.h` are not part of this model. Each `list_t` bucket and its `ht_entry.next` links are modelled as a sequence of entries. Relinking nodes becomes sequence updates, so pointer aliasing between entries is not modelled.
- Set appends a new entry and counts it first, then rehashes when the new load factor exceeds 0.75.

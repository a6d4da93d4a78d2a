/**
 * One bucket of the hash table: a chain of entries (`ht_entry` in the
 * header), each holding a string key and an unsigned 64-bit value.
 * The linked `next` pointers of the C chain become the order of a sequence.
 */
module Chains {

  /** `size_t`: the unsigned 64-bit values stored in the table. */
  type Value = v: nat | v < 0x1_0000_0000_0000_0000

  datatype Entry = Entry(key: string, value: Value)

  /** The entries of one bucket, head of the chain first. */
  type Chain = seq<Entry>

  datatype Option<T> = None | Some(value: T)

  /** The value of the first entry of `c` whose key is `k`, if any. */
  function Lookup(c: Chain, k: string): Option<Value>
  {
    if c == [] then None
    else if c[0].key == k then Some(c[0].value)
    else Lookup(c[1..], k)
  }

  /** No two entries of the chain share a key. */
  ghost predicate DistinctKeys(c: Chain)
  {
    forall a, b :: 0 <= a < b < |c| ==> c[a].key != c[b].key
  }

  /** A lookup misses exactly when no entry of the chain carries the key. */
  lemma {:induction false} LookupNone(c: Chain, k: string)
    ensures Lookup(c, k) == None <==> forall p :: 0 <= p < |c| ==> c[p].key != k
  {
    if c != [] {
      LookupNone(c[1..], k);
      assert forall p :: 1 <= p < |c| ==> c[p] == c[1..][p - 1];
    }
  }

  /** In a chain with distinct keys, the lookup of an entry's key finds that entry. */
  lemma {:induction false} LookupHit(c: Chain, p: nat)
    requires DistinctKeys(c)
    requires p < |c|
    ensures Lookup(c, c[p].key) == Some(c[p].value)
  {
    if p > 0 {
      assert c[0].key != c[p].key;
      LookupHit(c[1..], p - 1);
    }
  }

  /** The prefix before an entry of a distinct-keyed chain does not hold its key. */
  lemma PrefixMiss(c: Chain, j: nat)
    requires DistinctKeys(c)
    requires j < |c|
    ensures Lookup(c[..j], c[j].key) == None
  {
    LookupNone(c[..j], c[j].key);
  }

  /** Appending an entry to a chain only adds its key when the chain lacked it. */
  lemma {:induction false} LookupAppend(c: Chain, e: Entry, k: string)
    ensures Lookup(c + [e], k) ==
            if Lookup(c, k).Some? then Lookup(c, k)
            else if e.key == k then Some(e.value)
            else None
  {
    if c != [] {
      assert (c + [e])[1..] == c[1..] + [e];
      LookupAppend(c[1..], e, k);
    }
  }

  /** Overwriting the value of entry `p` changes the lookup of its key only. */
  lemma {:induction false} LookupReplace(c: Chain, p: nat, v: Value, k: string)
    requires DistinctKeys(c)
    requires p < |c|
    ensures Lookup(c[p := Entry(c[p].key, v)], k) ==
            if k == c[p].key then Some(v) else Lookup(c, k)
  {
    var c' := c[p := Entry(c[p].key, v)];
    if p > 0 {
      assert c[0].key != c[p].key;
      assert c'[1..] == c[1..][p - 1 := Entry(c[p].key, v)];
      LookupReplace(c[1..], p - 1, v, k);
    }
  }

  /** Unlinking entry `p` from a distinct-keyed chain removes exactly its key. */
  lemma {:induction false} LookupRemove(c: Chain, p: nat, k: string)
    requires DistinctKeys(c)
    requires p < |c|
    ensures Lookup(c[..p] + c[p + 1..], k) == if k == c[p].key then None else Lookup(c, k)
  {
    if p == 0 {
      assert c[..0] + c[1..] == c[1..];
      if k == c[0].key {
        LookupNone(c[1..], k);
      }
    } else {
      assert c[..p] + c[p + 1..] == [c[0]] + (c[1..][..p - 1] + c[1..][p..]);
      assert c[0].key != c[p].key;
      LookupRemove(c[1..], p - 1, k);
    }
  }
}

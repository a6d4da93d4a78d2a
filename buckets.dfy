/**
 * The bucket array of the hash table as a value, and the invariant that
 * ties it to the key-value map it stands for.  Every lemma here is about
 * one step that the table's operations take on the buckets.
 */
module Buckets {
  import opened Chains

  /** `hashing_func`: a key and the current capacity give a bucket index. */
  type HashFunc = (string, nat) -> nat

  /** The hash function's contract: an index below the capacity. */
  ghost predicate HashInRange(hash: HashFunc)
  {
    forall k, n :: 0 < n ==> hash(k, n) < n
  }

  /** Number of entries across all the chains. */
  function TotalSize(bs: seq<Chain>): nat
  {
    if bs == [] then 0 else |bs[0]| + TotalSize(bs[1..])
  }

  function MapLookup(m: map<string, Value>, k: string): Option<Value>
  {
    if k in m then Some(m[k]) else None
  }

  /** Every entry sits in the bucket its key hashes to under the current capacity. */
  ghost predicate Placed(bs: seq<Chain>, hash: HashFunc)
  {
    forall i, j :: 0 <= i < |bs| && 0 <= j < |bs[i]| ==> hash(bs[i][j].key, |bs|) == i
  }

  ghost predicate AllDistinct(bs: seq<Chain>)
  {
    forall i :: 0 <= i < |bs| ==> DistinctKeys(bs[i])
  }

  /** Looking a key up in its bucket gives exactly what the map holds for it. */
  ghost predicate Represents(bs: seq<Chain>, hash: HashFunc, m: map<string, Value>)
    requires HashInRange(hash) && |bs| > 0
  {
    forall k :: Lookup(bs[hash(k, |bs|)], k) == MapLookup(m, k)
  }

  /** The table invariant: buckets `bs` hold exactly the pairs of `m`, one entry per key. */
  ghost predicate WellFormed(bs: seq<Chain>, hash: HashFunc, m: map<string, Value>)
  {
    && |bs| > 0
    && HashInRange(hash)
    && Placed(bs, hash)
    && AllDistinct(bs)
    && Represents(bs, hash, m)
    && TotalSize(bs) == |m|
  }

  /** Replacing one bucket changes the entry count by the difference in its length. */
  lemma {:induction false} TotalSizeUpdate(bs: seq<Chain>, i: nat, b: Chain)
    requires i < |bs|
    ensures TotalSize(bs[i := b]) == TotalSize(bs) - |bs[i]| + |b|
  {
    if i == 0 {
      assert bs[i := b][1..] == bs[1..];
    } else {
      assert bs[i := b][1..] == bs[1..][i - 1 := b];
      TotalSizeUpdate(bs[1..], i - 1, b);
    }
  }

  lemma {:induction false} TotalSizeEmpty(bs: seq<Chain>)
    requires forall i :: 0 <= i < |bs| ==> bs[i] == []
    ensures TotalSize(bs) == 0
  {
    if bs != [] {
      TotalSizeEmpty(bs[1..]);
    }
  }

  /** Two maps that answer every lookup alike are equal. */
  lemma MapLookupExtensional(a: map<string, Value>, b: map<string, Value>)
    requires forall k :: MapLookup(a, k) == MapLookup(b, k)
    ensures a == b
  {
    forall k ensures k in a <==> k in b {
      assert MapLookup(a, k) == MapLookup(b, k);
    }
    forall k | k in a ensures a[k] == b[k] {
      assert MapLookup(a, k) == MapLookup(b, k);
    }
  }

  /** Empty buckets stand for the empty map. */
  lemma EmptyWellFormed(bs: seq<Chain>, hash: HashFunc)
    requires |bs| > 0 && HashInRange(hash)
    requires forall i :: 0 <= i < |bs| ==> bs[i] == []
    ensures WellFormed(bs, hash, map[])
  {
    TotalSizeEmpty(bs);
  }

  /** Every entry stored in the buckets is a pair of the map. */
  lemma EntryInContents(bs: seq<Chain>, hash: HashFunc, m: map<string, Value>, i: nat, j: nat)
    requires WellFormed(bs, hash, m)
    requires i < |bs| && j < |bs[i]|
    ensures bs[i][j].key in m && m[bs[i][j].key] == bs[i][j].value
  {
    var k := bs[i][j].key;
    assert hash(k, |bs|) == i;
    LookupHit(bs[i], j);
    assert MapLookup(m, k) == Some(bs[i][j].value);
  }

  /** Keys are unique across the whole table, not only within a chain. */
  lemma KeysUnique(bs: seq<Chain>, hash: HashFunc, m: map<string, Value>, i1: nat, j1: nat, i2: nat, j2: nat)
    requires WellFormed(bs, hash, m)
    requires i1 < |bs| && j1 < |bs[i1]| && i2 < |bs| && j2 < |bs[i2]|
    requires bs[i1][j1].key == bs[i2][j2].key
    ensures i1 == i2 && j1 == j2
  {
  }

  /** A key that no entry of its bucket carries is absent from the map. */
  lemma MissingKey(bs: seq<Chain>, hash: HashFunc, m: map<string, Value>, k: string, t: nat)
    requires WellFormed(bs, hash, m)
    requires t == hash(k, |bs|)
    requires forall p :: 0 <= p < |bs[t]| ==> bs[t][p].key != k
    ensures k !in m
  {
    LookupNone(bs[t], k);
    assert MapLookup(m, k) == None;
  }

  /** Appending a new key to its bucket adds its pair to the map and one to the count. */
  lemma InsertNew(bs: seq<Chain>, hash: HashFunc, m: map<string, Value>, k: string, v: Value, t: nat)
    requires WellFormed(bs, hash, m)
    requires k !in m
    requires t == hash(k, |bs|)
    ensures WellFormed(bs[t := bs[t] + [Entry(k, v)]], hash, m[k := v])
  {
    var c := bs[t];
    var e := Entry(k, v);
    var bs' := bs[t := c + [e]];
    var m' := m[k := v];
    assert Lookup(c, k) == MapLookup(m, k);
    LookupNone(c, k);
    assert Placed(bs', hash) by {
      forall i, j | 0 <= i < |bs'| && 0 <= j < |bs'[i]| ensures hash(bs'[i][j].key, |bs'|) == i {
        if i == t && j == |c| {
          assert bs'[i][j] == e;
        } else {
          assert bs'[i][j] == bs[i][j];
        }
      }
    }
    assert DistinctKeys(c + [e]);
    assert AllDistinct(bs');
    forall k' ensures Lookup(bs'[hash(k', |bs'|)], k') == MapLookup(m', k') {
      if hash(k', |bs|) == t {
        LookupAppend(c, e, k');
      }
    }
    TotalSizeUpdate(bs, t, c + [e]);
  }

  /** Overwriting the value of a key already present keeps the count and updates the map. */
  lemma ReplaceExisting(bs: seq<Chain>, hash: HashFunc, m: map<string, Value>, k: string, v: Value, t: nat, j: nat)
    requires WellFormed(bs, hash, m)
    requires t == hash(k, |bs|)
    requires j < |bs[t]| && bs[t][j].key == k
    ensures k in m
    ensures WellFormed(bs[t := bs[t][j := Entry(k, v)]], hash, m[k := v])
  {
    var c := bs[t];
    var c' := c[j := Entry(k, v)];
    var bs' := bs[t := c'];
    var m' := m[k := v];
    EntryInContents(bs, hash, m, t, j);
    assert Placed(bs', hash) by {
      forall i, p | 0 <= i < |bs'| && 0 <= p < |bs'[i]| ensures hash(bs'[i][p].key, |bs'|) == i {
        assert bs'[i][p].key == bs[i][p].key;
      }
    }
    assert DistinctKeys(c') by {
      forall a, b | 0 <= a < b < |c'| ensures c'[a].key != c'[b].key {
        assert c'[a].key == c[a].key && c'[b].key == c[b].key;
      }
    }
    assert AllDistinct(bs');
    forall k' ensures Lookup(bs'[hash(k', |bs'|)], k') == MapLookup(m', k') {
      if hash(k', |bs|) == t {
        LookupReplace(c, j, v, k');
      }
    }
    TotalSizeUpdate(bs, t, c');
  }

  /** Unlinking the entry of a key drops its pair from the map and one from the count. */
  lemma RemoveExisting(bs: seq<Chain>, hash: HashFunc, m: map<string, Value>, k: string, t: nat, j: nat)
    requires WellFormed(bs, hash, m)
    requires t == hash(k, |bs|)
    requires j < |bs[t]| && bs[t][j].key == k
    ensures k in m && m[k] == bs[t][j].value
    ensures WellFormed(bs[t := bs[t][..j] + bs[t][j + 1..]], hash, m - {k})
  {
    var c := bs[t];
    var c' := c[..j] + c[j + 1..];
    var bs' := bs[t := c'];
    var m' := m - {k};
    EntryInContents(bs, hash, m, t, j);
    assert forall p :: 0 <= p < |c'| ==> c'[p] == if p < j then c[p] else c[p + 1];
    assert Placed(bs', hash) by {
      forall i, p | 0 <= i < |bs'| && 0 <= p < |bs'[i]| ensures hash(bs'[i][p].key, |bs'|) == i {
        if i == t {
          assert bs'[i][p].key == c[if p < j then p else p + 1].key;
        } else {
          assert bs'[i][p] == bs[i][p];
        }
      }
    }
    assert DistinctKeys(c') by {
      forall a, b | 0 <= a < b < |c'| ensures c'[a].key != c'[b].key {
        var a0, b0 := if a < j then a else a + 1, if b < j then b else b + 1;
        assert a0 < b0 && c'[a] == c[a0] && c'[b] == c[b0];
      }
    }
    assert AllDistinct(bs');
    forall k' ensures Lookup(bs'[hash(k', |bs'|)], k') == MapLookup(m', k') {
      if hash(k', |bs|) == t {
        LookupRemove(c, j, k');
      }
    }
    TotalSizeUpdate(bs, t, c');
    assert m'.Keys == m.Keys - {k};
  }

  /**
   * Progress of a rehash into a table of new capacity: `moved` holds the
   * pairs of `m` whose keys hashed, under the old capacity `n`, to a bucket
   * before `i`, plus those of bucket `i` already taken from its chain
   * (`done`, a prefix of that chain).
   */
  ghost predicate MovedUpTo(moved: map<string, Value>, m: map<string, Value>, hash: HashFunc,
                            n: nat, i: nat, done: Chain)
  {
    forall k :: MapLookup(moved, k) ==
      if hash(k, n) < i then MapLookup(m, k)
      else if hash(k, n) == i then Lookup(done, k)
      else None
  }

  /** Nothing is moved before the first bucket. */
  lemma MovedNothing(m: map<string, Value>, hash: HashFunc, n: nat)
    ensures MovedUpTo(map[], m, hash, n, 0, [])
  {
  }

  /**
   * One step of a rehash: entry `j` of old bucket `i` is appended to the
   * bucket its key hashes to in the new array `nbs`.
   */
  lemma MoveEntry(nbs: seq<Chain>, hash: HashFunc, moved: map<string, Value>, m: map<string, Value>,
                  n: nat, i: nat, chain: Chain, j: nat, t: nat)
    requires DistinctKeys(chain) && j < |chain| && hash(chain[j].key, n) == i
    requires WellFormed(nbs, hash, moved)
    requires MovedUpTo(moved, m, hash, n, i, chain[..j])
    requires t == hash(chain[j].key, |nbs|)
    ensures chain[j].key !in moved
    ensures WellFormed(nbs[t := nbs[t] + [chain[j]]], hash, moved[chain[j].key := chain[j].value])
    ensures MovedUpTo(moved[chain[j].key := chain[j].value], m, hash, n, i, chain[..j + 1])
  {
    var e := chain[j];
    PrefixMiss(chain, j);
    assert MapLookup(moved, e.key) == None;
    InsertNew(nbs, hash, moved, e.key, e.value, t);
    assert chain[..j + 1] == chain[..j] + [e];
    var moved' := moved[e.key := e.value];
    forall k ensures MapLookup(moved', k) ==
                     if hash(k, n) < i then MapLookup(m, k)
                     else if hash(k, n) == i then Lookup(chain[..j + 1], k)
                     else None
    {
      LookupAppend(chain[..j], e, k);
    }
  }

  /** Once a whole old bucket is moved, the rehash goes on at the next one. */
  lemma BucketMoved(bs: seq<Chain>, hash: HashFunc, moved: map<string, Value>, m: map<string, Value>, i: nat)
    requires WellFormed(bs, hash, m)
    requires i < |bs|
    requires MovedUpTo(moved, m, hash, |bs|, i, bs[i])
    ensures MovedUpTo(moved, m, hash, |bs|, i + 1, [])
  {
  }

  /** When every old bucket is moved, the new buckets hold exactly the old pairs. */
  lemma AllMoved(moved: map<string, Value>, m: map<string, Value>, hash: HashFunc, n: nat)
    requires 0 < n && HashInRange(hash)
    requires MovedUpTo(moved, m, hash, n, n, [])
    ensures moved == m
  {
    forall k ensures MapLookup(moved, k) == MapLookup(m, k) {
      assert hash(k, n) < n;
    }
    MapLookupExtensional(moved, m);
  }
}

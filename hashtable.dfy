/**
 * `hashtable_t`: a string-keyed separate-chaining hash table with
 * size_t values.  The bucket array is an `array` of chains that the
 * operations update in place; a rehash moves every entry into a fresh
 * array eight buckets larger.  The ghost map `Contents` is the table's
 * abstract value.
 */
module HashTables {
  import opened Chains
  import opened Buckets

  /** Buckets added by each rehash. */
  const ADD_CAP: nat := 8

  /** Buckets of a freshly initialised table. */
  const INITIAL_CAPACITY: nat := ADD_CAP

  /**
   * `length / capacity > LOAD_FACTOR` with LOAD_FACTOR = 0.75, in integers.
   */
  predicate OverLoaded(length: nat, capacity: nat)
  {
    4 * length > 3 * capacity
  }

  class HashTable {
    var table: array<Chain>
    var capacity: nat
    var length: nat
    const hashingFunc: HashFunc

    /** The key-value pairs the table holds. */
    ghost var Contents: map<string, Value>

    /** The objects the table is made of: itself and its bucket array. */
    ghost var Repr: set<object>

    /** The table invariant, without the load-factor bound. */
    ghost predicate Consistent()
      reads this, Repr
    {
      && Repr == {this, table}
      && capacity == table.Length
      && WellFormed(table[..], hashingFunc, Contents)
      && length == |Contents|
    }

    /** The table invariant between calls of the public operations. */
    ghost predicate Valid()
      reads this, Repr
    {
      Consistent() && !OverLoaded(length, capacity)
    }

    /** `hashtable_init`: an empty table with INITIAL_CAPACITY buckets. */
    constructor Init(hashingFunc: HashFunc)
      requires HashInRange(hashingFunc)
      ensures Valid() && fresh(Repr)
      ensures Contents == map[] && length == 0 && capacity == INITIAL_CAPACITY
      ensures this.hashingFunc == hashingFunc
    {
      this.hashingFunc := hashingFunc;
      table := new Chain[INITIAL_CAPACITY](_ => []);
      capacity := INITIAL_CAPACITY;
      length := 0;
      Contents := map[];
      Repr := {this, table};
      new;
      EmptyWellFormed(table[..], hashingFunc);
    }

    /**
     * `hashtable_rehash`: moves every entry, bucket by bucket and chain by
     * chain, into a new bucket array ADD_CAP buckets larger, at the index its
     * key hashes to under the new capacity.  The old buckets are left empty.
     */
    method Rehash()
      requires Consistent()
      modifies Repr
      ensures Consistent() && fresh(table) && fresh(Repr - old(Repr))
      ensures capacity == old(capacity) + ADD_CAP
      ensures Contents == old(Contents) && length == old(length)
      ensures forall i, j :: 0 <= i < table.Length && 0 <= j < |table[i]| ==>
                hashingFunc(table[i][j].key, capacity) == i
    {
      ghost var oldBs := table[..];
      ghost var contents := Contents;
      var oldCap := capacity;
      var newCap := capacity + ADD_CAP;
      var newTable := new Chain[newCap](_ => []);
      EmptyWellFormed(newTable[..], hashingFunc);
      ghost var moved: map<string, Value> := map[];
      MovedNothing(contents, hashingFunc, oldCap);
      var i := 0;
      while i < oldCap
        modifies table, newTable
        invariant 0 <= i <= oldCap
        invariant forall t :: i <= t < oldCap ==> table[t] == oldBs[t]
        invariant WellFormed(newTable[..], hashingFunc, moved)
        invariant MovedUpTo(moved, contents, hashingFunc, oldCap, i, [])
      {
        var chain := table[i];
        assert chain[..0] == [];
        var j := 0;
        while j < |chain|
          modifies newTable
          invariant 0 <= j <= |chain|
          invariant WellFormed(newTable[..], hashingFunc, moved)
          invariant MovedUpTo(moved, contents, hashingFunc, oldCap, i, chain[..j])
        {
          var e := chain[j];
          var t := hashingFunc(e.key, newCap);
          MoveEntry(newTable[..], hashingFunc, moved, contents, oldCap, i, chain, j, t);
          newTable[t] := newTable[t] + [e];
          moved := moved[e.key := e.value];
          j := j + 1;
        }
        assert chain[..j] == oldBs[i];
        BucketMoved(oldBs, hashingFunc, moved, contents, i);
        table[i] := [];
        i := i + 1;
      }
      AllMoved(moved, contents, hashingFunc, oldCap);
      table := newTable;
      capacity := newCap;
      Repr := {this, table};
    }

    /**
     * `hashtable_set`: overwrites the value of `key` when present; otherwise
     * appends a new entry to its chain and, when that pushes the load factor
     * over 0.75, rehashes.
     */
    method Set(key: string, value: Value)
      requires Valid()
      modifies Repr
      ensures Valid() && fresh(Repr - old(Repr))
      ensures Contents == old(Contents)[key := value]
      ensures length == if key in old(Contents) then old(length) else old(length) + 1
      ensures capacity ==
              if key !in old(Contents) && OverLoaded(old(length) + 1, old(capacity))
              then old(capacity) + ADD_CAP else old(capacity)
      ensures capacity == old(capacity) ==> table == old(table)
    {
      var i := hashingFunc(key, capacity);
      var chain := table[i];
      var j := 0;
      while j < |chain| && chain[j].key != key
        invariant 0 <= j <= |chain|
        invariant forall p :: 0 <= p < j ==> chain[p].key != key
      {
        j := j + 1;
      }
      if j < |chain| {
        ReplaceExisting(table[..], hashingFunc, Contents, key, value, i, j);
        table[i] := chain[j := Entry(key, value)];
        Contents := Contents[key := value];
      } else {
        MissingKey(table[..], hashingFunc, Contents, key, i);
        InsertNew(table[..], hashingFunc, Contents, key, value, i);
        table[i] := chain + [Entry(key, value)];
        Contents := Contents[key := value];
        length := length + 1;
        if OverLoaded(length, capacity) {
          Rehash();
        }
      }
    }

    /** `hashtable_get`: the value stored for `key`, or 0 when it is absent. */
    method Get(key: string) returns (v: Value)
      requires Valid()
      ensures key in Contents ==> v == Contents[key]
      ensures key !in Contents ==> v == 0
    {
      var i := hashingFunc(key, capacity);
      var chain := table[i];
      var j := 0;
      while j < |chain|
        invariant 0 <= j <= |chain|
        invariant forall p :: 0 <= p < j ==> chain[p].key != key
      {
        if chain[j].key == key {
          EntryInContents(table[..], hashingFunc, Contents, i, j);
          return chain[j].value;
        }
        j := j + 1;
      }
      MissingKey(table[..], hashingFunc, Contents, key, i);
      return 0;
    }

    /**
     * `hashtable_remove`: unlinks the entry of `key` and returns its value,
     * or returns 0 and leaves the table as it was when `key` is absent.
     */
    method Remove(key: string) returns (v: Value)
      requires Valid()
      modifies Repr
      ensures Valid() && Repr == old(Repr) && capacity == old(capacity)
      ensures key in old(Contents) ==> v == old(Contents)[key] && length == old(length) - 1
      ensures key !in old(Contents) ==> v == 0 && length == old(length) && table[..] == old(table[..])
      ensures Contents == old(Contents) - {key}
    {
      var i := hashingFunc(key, capacity);
      var chain := table[i];
      var j := 0;
      while j < |chain| && chain[j].key != key
        invariant 0 <= j <= |chain|
        invariant forall p :: 0 <= p < j ==> chain[p].key != key
      {
        j := j + 1;
      }
      if j == |chain| {
        MissingKey(table[..], hashingFunc, Contents, key, i);
        assert Contents - {key} == Contents;
        return 0;
      }
      RemoveExisting(table[..], hashingFunc, Contents, key, i, j);
      v := chain[j].value;
      table[i] := chain[..j] + chain[j + 1..];
      Contents := Contents - {key};
      length := length - 1;
    }

    /** `hashtable_clear`: empties every chain; the capacity stays. */
    method Clear()
      requires Valid()
      modifies Repr
      ensures Valid() && Repr == old(Repr) && capacity == old(capacity)
      ensures Contents == map[] && length == 0
    {
      var i := 0;
      while i < table.Length
        modifies table
        invariant 0 <= i <= table.Length
        invariant forall t :: 0 <= t < i ==> table[t] == []
      {
        table[i] := [];
        i := i + 1;
      }
      length := 0;
      Contents := map[];
      EmptyWellFormed(table[..], hashingFunc);
    }
  }

  /**
   * `hashtable_purge`: clears the table and hands back the null handle the
   * caller's pointer is set to.
   */
  method Purge(t: HashTable) returns (handle: HashTable?)
    requires t.Valid()
    modifies t.Repr
    ensures handle == null
    ensures t.Contents == map[] && t.length == 0 && t.capacity == old(t.capacity)
  {
    t.Clear();
    handle := null;
  }

  /**
   * The load-factor threshold at the initial capacity: the sixth distinct key
   * gives load 6/8 = 0.75, which does not exceed LOAD_FACTOR; the seventh
   * (7/8) grows the table to 16 buckets, and the eighth (8/16) does not grow
   * it again.  `c6`, `c7` and `c8` are the capacities after each insertion.
   */
  method ThresholdScenario(t: HashTable, k6: string, k7: string, k8: string)
    returns (ghost c6: nat, ghost c7: nat, ghost c8: nat)
    requires t.Valid() && t.capacity == INITIAL_CAPACITY && t.length == 5
    requires k6 !in t.Contents && k7 !in t.Contents && k8 !in t.Contents
    requires k6 != k7 && k6 != k8 && k7 != k8
    modifies t.Repr
    ensures c6 == 8 && c7 == 16 && c8 == 16
    ensures t.Valid() && t.length == 8 && t.capacity == c8
    ensures t.Contents == old(t.Contents)[k6 := 6][k7 := 7][k8 := 8]
  {
    t.Set(k6, 6);
    c6 := t.capacity;
    t.Set(k7, 7);
    c7 := t.capacity;
    t.Set(k8, 8);
    c8 := t.capacity;
  }

  /** Setting a key and then getting it gives back the value just set. */
  method SetThenGet(t: HashTable, key: string, value: Value) returns (r: Value)
    requires t.Valid()
    modifies t.Repr
    ensures t.Valid() && r == value
  {
    t.Set(key, value);
    r := t.Get(key);
  }

  /**
   * Setting a key, removing it and then getting it: the removal returns the
   * value that was set, and the later lookup misses with 0.
   */
  method SetRemoveThenMiss(t: HashTable, key: string, value: Value) returns (removed: Value, r: Value)
    requires t.Valid()
    modifies t.Repr
    ensures t.Valid() && removed == value && r == 0 && key !in t.Contents
  {
    t.Set(key, value);
    removed := t.Remove(key);
    r := t.Get(key);
  }

  /**
   * Setting a key twice: the length counts it once, the capacity grows at
   * most by the first insertion, and the second value wins.
   */
  method OverwriteKeepsLength(t: HashTable, key: string, v1: Value, v2: Value) returns (r: Value)
    requires t.Valid()
    modifies t.Repr
    ensures t.Valid() && r == v2
    ensures t.length == if key in old(t.Contents) then old(t.length) else old(t.length) + 1
  {
    t.Set(key, v1);
    ghost var n := t.length;
    t.Set(key, v2);
    assert t.length == n;
    r := t.Get(key);
  }
}

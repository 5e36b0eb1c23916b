/**
  A separate-chaining hash table: `size` buckets, each a list of
  `[key, value]` pairs, with the key's bucket chosen by `hash(key) % size`.
 */
module BucketHashTable {
  import opened Wrappers

  /** The value of the first pair in `bucket` whose key is `key`, as the source's scans find it. */
  function Find<K(==), V>(bucket: seq<(K, V)>, key: K): (r: Option<V>)
    ensures r.None? <==> forall n :: 0 <= n < |bucket| ==> bucket[n].0 != key
    ensures r.Some? ==> exists n :: 0 <= n < |bucket| && bucket[n] == (key, r.value)
  {
    if bucket == [] then None
    else if bucket[0].0 == key then Some(bucket[0].1)
    else
      var r := Find(bucket[1..], key);
      assert forall n :: 0 < n < |bucket| ==> bucket[1..][n - 1] == bucket[n];
      r
  }

  /** The pair `Find` reports is the first one with the key: every pair before it has another key. */
  lemma {:induction false} FindIsFirst<K, V>(bucket: seq<(K, V)>, key: K)
    requires Find(bucket, key).Some?
    ensures exists n :: 0 <= n < |bucket| && bucket[n] == (key, Find(bucket, key).value) &&
                        forall m :: 0 <= m < n ==> bucket[m].0 != key
  {
    if bucket[0].0 != key {
      FindIsFirst(bucket[1..], key);
      var n :| 0 <= n < |bucket| - 1 && bucket[1..][n] == (key, Find(bucket, key).value) &&
               forall m :: 0 <= m < n ==> bucket[1..][m].0 != key;
      assert bucket[n + 1] == (key, Find(bucket, key).value);
      assert forall m :: 0 <= m < n + 1 ==> bucket[m].0 != key by {
        forall m | 0 < m < n + 1
          ensures bucket[m].0 != key
        {
          assert bucket[m] == bucket[1..][m - 1];
        }
      }
    } else {
      assert bucket[0] == (key, Find(bucket, key).value);
    }
  }

  /** No key occurs twice in `bucket`. */
  ghost predicate DistinctKeys<K, V>(bucket: seq<(K, V)>)
  {
    forall p, q :: 0 <= p < q < |bucket| ==> bucket[p].0 != bucket[q].0
  }

  /** In a bucket with distinct keys, the pair at index `n` is the one `Find` returns for its key. */
  lemma {:induction false} FindAt<K, V>(bucket: seq<(K, V)>, n: nat)
    requires n < |bucket| && DistinctKeys(bucket)
    ensures Find(bucket, bucket[n].0) == Some(bucket[n].1)
  {
    if n > 0 {
      FindAt(bucket[1..], n - 1);
    }
  }

  /** Overwriting the value of the pair at `n` changes what `Find` gives for that key only. */
  lemma FindAfterOverwrite<K, V>(bucket: seq<(K, V)>, n: nat, value: V, other: K)
    requires n < |bucket| && DistinctKeys(bucket)
    ensures DistinctKeys(bucket[n := (bucket[n].0, value)])
    ensures Find(bucket[n := (bucket[n].0, value)], other)
            == if other == bucket[n].0 then Some(value) else Find(bucket, other)
  {
    var b := bucket[n := (bucket[n].0, value)];
    if other == bucket[n].0 {
      FindAt(b, n);
    } else if Find(bucket, other).Some? {
      var k :| 0 <= k < |bucket| && bucket[k] == (other, Find(bucket, other).value);
      FindAt(bucket, k);
      FindAt(b, k);
    }
  }

  /** Appending a pair for a key the bucket lacks changes what `Find` gives for that key only. */
  lemma FindAfterAppend<K, V>(bucket: seq<(K, V)>, key: K, value: V, other: K)
    requires DistinctKeys(bucket) && Find(bucket, key).None?
    ensures DistinctKeys(bucket + [(key, value)])
    ensures Find(bucket + [(key, value)], other)
            == if other == key then Some(value) else Find(bucket, other)
  {
    var b := bucket + [(key, value)];
    if other == key {
      FindAt(b, |bucket|);
    } else if Find(bucket, other).Some? {
      var k :| 0 <= k < |bucket| && bucket[k] == (other, Find(bucket, other).value);
      FindAt(bucket, k);
      FindAt(b, k);
    }
  }

  /** Removing a pair whose key is not `other` does not change what the scan for `other` finds. */
  lemma {:induction false} FindSkipsRemoved<K, V>(bucket: seq<(K, V)>, n: nat, other: K)
    requires n < |bucket| && bucket[n].0 != other
    ensures Find(bucket[..n] + bucket[n + 1..], other) == Find(bucket, other)
  {
    var b := bucket[..n] + bucket[n + 1..];
    if n == 0 {
      assert b == bucket[1..];
    } else {
      var rest := bucket[1..];
      FindSkipsRemoved(rest, n - 1, other);
      assert b[0] == bucket[0];
      assert b[1..] == rest[..n - 1] + rest[n..];
    }
  }

  /** Removing the pair at `n` keeps the keys distinct and leaves no pair with its key. */
  lemma RemoveKeepsDistinct<K, V>(bucket: seq<(K, V)>, n: nat)
    requires n < |bucket| && DistinctKeys(bucket)
    ensures DistinctKeys(bucket[..n] + bucket[n + 1..])
    ensures Find(bucket[..n] + bucket[n + 1..], bucket[n].0) == None
  {
    var b := bucket[..n] + bucket[n + 1..];
    assert forall k :: 0 <= k < |b| ==> b[k] == bucket[if k < n then k else k + 1];
  }

  /** Removing the pair at `n` makes its key absent and leaves every other key as it was. */
  lemma FindAfterRemove<K, V>(bucket: seq<(K, V)>, n: nat, other: K)
    requires n < |bucket| && DistinctKeys(bucket)
    ensures DistinctKeys(bucket[..n] + bucket[n + 1..])
    ensures Find(bucket[..n] + bucket[n + 1..], other)
            == if other == bucket[n].0 then None else Find(bucket, other)
  {
    RemoveKeepsDistinct(bucket, n);
    if other != bucket[n].0 {
      FindSkipsRemoved(bucket, n, other);
    }
  }

  /** The bucket of `key` among `size` buckets: `hash(key) % size`. */
  function BucketIndex<K>(hash: K -> int, size: nat, key: K): (index: int)
    requires size > 0
    ensures 0 <= index < size
  {
    hash(key) % size
  }

  /** What `contents` holds for `key`, as an option. */
  function Lookup<K, V>(contents: map<K, V>, key: K): Option<V>
  {
    if key in contents then Some(contents[key]) else None
  }

  /**
    `buckets` stores `contents`: every pair lies in its key's bucket, no bucket
    repeats a key, and the key's bucket yields exactly what `contents` holds.
   */
  ghost predicate Represents<K(!new), V>(buckets: seq<seq<(K, V)>>, hash: K -> int, contents: map<K, V>)
  {
    |buckets| > 0 &&
    (forall i, n :: 0 <= i < |buckets| && 0 <= n < |buckets[i]| ==> BucketIndex(hash, |buckets|, buckets[i][n].0) == i) &&
    (forall i :: 0 <= i < |buckets| ==> DistinctKeys(buckets[i])) &&
    (forall key :: Find(buckets[BucketIndex(hash, |buckets|, key)], key) == Lookup(contents, key))
  }

  /**
    Replacing bucket `h` by `bucket` stores `contents'` when the new bucket's
    pairs belong there, its keys are distinct, and every key's (possibly new)
    bucket yields what `contents'` holds.
   */
  lemma ReplaceBucket<K(!new), V>(buckets: seq<seq<(K, V)>>, hash: K -> int, contents: map<K, V>,
                                      h: nat, bucket: seq<(K, V)>, contents': map<K, V>)
    requires Represents(buckets, hash, contents) && h < |buckets|
    requires forall n :: 0 <= n < |bucket| ==> BucketIndex(hash, |buckets|, bucket[n].0) == h
    requires DistinctKeys(bucket)
    requires forall key :: BucketIndex(hash, |buckets|, key) == h ==> Find(bucket, key) == Lookup(contents', key)
    requires forall key :: BucketIndex(hash, |buckets|, key) != h ==> Lookup(contents, key) == Lookup(contents', key)
    ensures Represents(buckets[h := bucket], hash, contents')
  {
    var b: seq<seq<(K, V)>> := buckets[h := bucket];
    var size := |buckets|;
    forall i: int, n: int | 0 <= i < size && 0 <= n < |b[i]|
      ensures BucketIndex(hash, size, b[i][n].0) == i
    {
      if i != h {
        assert b[i] == buckets[i];
      }
    }
    forall i: int | 0 <= i < size
      ensures DistinctKeys(b[i])
    {
      if i != h {
        assert b[i] == buckets[i];
      }
    }
    forall key
      ensures Find(b[BucketIndex(hash, size, key)], key) == Lookup(contents', key)
    {
      var j := BucketIndex(hash, size, key);
      if j != h {
        assert b[j] == buckets[j];
        assert Find(buckets[j], key) == Lookup(contents, key);
      }
    }
  }

  /** Updating a map at `key` changes what it holds for that key only. */
  lemma LookupAfterUpdate<K, V>(contents: map<K, V>, key: K, value: V, other: K)
    ensures Lookup(contents[key := value], other) == if other == key then Some(value) else Lookup(contents, other)
  {
  }

  /** Removing `key` from a map makes it absent and leaves every other key as it was. */
  lemma LookupAfterRemove<K, V>(contents: map<K, V>, key: K, other: K)
    ensures Lookup(contents - {key}, other) == if other == key then None else Lookup(contents, other)
  {
  }

  /** Overwriting the value of the pair at `n` of `key`'s bucket stores `contents[key := value]`. */
  lemma OverwriteRepresents<K(!new), V>(buckets: seq<seq<(K, V)>>, hash: K -> int, contents: map<K, V>, key: K, n: nat, value: V)
    requires Represents(buckets, hash, contents)
    requires var h := BucketIndex(hash, |buckets|, key); n < |buckets[h]| && buckets[h][n].0 == key
    ensures var h := BucketIndex(hash, |buckets|, key);
      Represents(buckets[h := buckets[h][n := (key, value)]], hash, contents[key := value])
  {
    var h := BucketIndex(hash, |buckets|, key);
    var old_, new_ := buckets[h], buckets[h][n := (key, value)];
    forall other
      ensures BucketIndex(hash, |buckets|, other) == h ==> Find(new_, other) == Lookup(contents[key := value], other)
      ensures BucketIndex(hash, |buckets|, other) != h ==> Lookup(contents, other) == Lookup(contents[key := value], other)
    {
      LookupAfterUpdate(contents, key, value, other);
      if BucketIndex(hash, |buckets|, other) == h {
        assert Find(old_, other) == Lookup(contents, other);
        FindAfterOverwrite(old_, n, value, other);
      }
    }
    FindAfterOverwrite(old_, n, value, key);
    assert forall m :: 0 <= m < |new_| ==> new_[m].0 == old_[m].0;
    ReplaceBucket(buckets, hash, contents, h, new_, contents[key := value]);
  }

  /** Appending a pair for an absent `key` to its bucket stores `contents[key := value]`. */
  lemma AppendRepresents<K(!new), V>(buckets: seq<seq<(K, V)>>, hash: K -> int, contents: map<K, V>, key: K, value: V)
    requires Represents(buckets, hash, contents) && key !in contents
    ensures var h := BucketIndex(hash, |buckets|, key);
      Represents(buckets[h := buckets[h] + [(key, value)]], hash, contents[key := value])
  {
    var h := BucketIndex(hash, |buckets|, key);
    var old_, new_ := buckets[h], buckets[h] + [(key, value)];
    assert Find(old_, key) == Lookup(contents, key) == None;
    forall other
      ensures BucketIndex(hash, |buckets|, other) == h ==> Find(new_, other) == Lookup(contents[key := value], other)
      ensures BucketIndex(hash, |buckets|, other) != h ==> Lookup(contents, other) == Lookup(contents[key := value], other)
    {
      LookupAfterUpdate(contents, key, value, other);
      if BucketIndex(hash, |buckets|, other) == h {
        assert Find(old_, other) == Lookup(contents, other);
        FindAfterAppend(old_, key, value, other);
      }
    }
    FindAfterAppend(old_, key, value, key);
    ReplaceBucket(buckets, hash, contents, h, new_, contents[key := value]);
  }

  /** Removing the pair at `n` of `key`'s bucket stores `contents - {key}`. */
  lemma RemoveRepresents<K(!new), V>(buckets: seq<seq<(K, V)>>, hash: K -> int, contents: map<K, V>, key: K, n: nat)
    requires Represents(buckets, hash, contents)
    requires var h := BucketIndex(hash, |buckets|, key); n < |buckets[h]| && buckets[h][n].0 == key
    ensures var h := BucketIndex(hash, |buckets|, key);
      Represents(buckets[h := buckets[h][..n] + buckets[h][n + 1..]], hash, contents - {key})
  {
    var h := BucketIndex(hash, |buckets|, key);
    var old_, new_ := buckets[h], buckets[h][..n] + buckets[h][n + 1..];
    forall other
      ensures BucketIndex(hash, |buckets|, other) == h ==> Find(new_, other) == Lookup(contents - {key}, other)
      ensures BucketIndex(hash, |buckets|, other) != h ==> Lookup(contents, other) == Lookup(contents - {key}, other)
    {
      LookupAfterRemove(contents, key, other);
      if BucketIndex(hash, |buckets|, other) == h {
        assert Find(old_, other) == Lookup(contents, other);
        FindAfterRemove(old_, n, other);
      }
    }
    FindAfterRemove(old_, n, key);
    assert forall m :: 0 <= m < |new_| ==> new_[m] == old_[if m < n then m else m + 1];
    ReplaceBucket(buckets, hash, contents, h, new_, contents - {key});
  }

  /**
    `HashTable`. `_init_` is taken to be the constructor the source means;
    `hash` stands for Python's built-in `hash`, a fixed function the model
    does not interpret.
   */
  class HashTable<K(==, !new), V> {
    const size: nat
    const hash: K -> int
    const table: array<seq<(K, V)>>
    /** The map the table represents. */
    ghost var Contents: map<K, V>

    /** `hash_function`: the bucket of `key`. */
    function HashFunction(key: K): (index: int)
      requires size > 0
      ensures 0 <= index < size
    {
      BucketIndex(hash, size, key)
    }

    ghost predicate Valid()
      reads this, table
    {
      size > 0 && table.Length == size && Represents(table[..], hash, Contents)
    }

    /** `_init_`: `size` empty buckets. */
    constructor (size: nat, hash: K -> int)
      requires size > 0
      ensures Valid() && fresh(table)
      ensures this.size == size && this.hash == hash
      ensures Contents == map[]
      ensures forall i :: 0 <= i < size ==> table[i] == []
    {
      this.size := size;
      this.hash := hash;
      table := new seq<(K, V)>[size](_ => []);
      Contents := map[];
    }

    /** `get`: the value stored for `key`, or None. */
    method Get(key: K) returns (r: Option<V>)
      requires Valid()
      ensures r == Lookup(Contents, key)
    {
      var bucket := table[HashFunction(key)];
      assert bucket == table[..][BucketIndex(hash, size, key)];
      for n := 0 to |bucket|
        invariant forall k :: 0 <= k < n ==> bucket[k].0 != key
      {
        if bucket[n].0 == key {
          FindAt(bucket, n);
          return Some(bucket[n].1);
        }
      }
      return None;
    }

    /**
      `insert`: overwrite the value of `key`'s pair in place, or append a new
      pair to its bucket; always succeeds.
     */
    method Insert(key: K, value: V) returns (ok: bool)
      requires Valid()
      modifies this, table
      ensures Valid() && ok
      ensures Contents == old(Contents)[key := value]
      ensures var h := HashFunction(key);
        if key in old(Contents) then
          exists n :: 0 <= n < |old(table[h])| && old(table[h])[n].0 == key && table[h] == old(table[h])[n := (key, value)]
        else
          table[h] == old(table[h]) + [(key, value)]
      ensures forall i :: 0 <= i < size && i != HashFunction(key) ==> table[i] == old(table[i])
    {
      var keyHash := HashFunction(key);
      var bucket := table[keyHash];
      assert bucket == table[..][keyHash];
      for n := 0 to |bucket|
        invariant forall k :: 0 <= k < n ==> bucket[k].0 != key
      {
        if bucket[n].0 == key {
          OverwriteRepresents(table[..], hash, Contents, key, n, value);
          FindAt(bucket, n);
          table[keyHash] := bucket[n := (key, value)];
          Contents := Contents[key := value];
          return true;
        }
      }
      AppendRepresents(table[..], hash, Contents, key, value);
      table[keyHash] := bucket + [(key, value)];
      Contents := Contents[key := value];
      return true;
    }

    /** `delete`: remove `key`'s pair; report whether there was one. */
    method Delete(key: K) returns (found: bool)
      requires Valid()
      modifies this, table
      ensures Valid()
      ensures found == (key in old(Contents))
      ensures Contents == old(Contents) - {key}
      ensures var h := HashFunction(key);
        if found then
          exists n :: 0 <= n < |old(table[h])| && old(table[h])[n].0 == key && table[h] == old(table[h])[..n] + old(table[h])[n + 1..]
        else
          table[h] == old(table[h])
      ensures forall i :: 0 <= i < size && i != HashFunction(key) ==> table[i] == old(table[i])
    {
      var keyHash := HashFunction(key);
      var bucket := table[keyHash];
      assert bucket == table[..][keyHash];
      for n := 0 to |bucket|
        invariant forall k :: 0 <= k < n ==> bucket[k].0 != key
      {
        if bucket[n].0 == key {
          RemoveRepresents(table[..], hash, Contents, key, n);
          FindAt(bucket, n);
          table[keyHash] := bucket[..n] + bucket[n + 1..];
          Contents := Contents - {key};
          return true;
        }
      }
      return false;
    }
  }
}

/**
 * LinkedHashedTable: a hash table with separate chaining. Its storage is an array of
 * buckets, each bucket the list of the entries whose keys hash to it: in insertion order
 * for the entries added since the last rehash, and after a rehash in the order the rehash
 * visited the old buckets.
 * Put inserts or replaces and then applies the growth policy; Contains, Get and the
 * enumeration only read.
 *
 * The key type's hash code is the table's `hash` function; key equality is `==`.
 * `Contents` is the map the table stands for; `Valid()` ties it to the buckets.
 */
module HashTable {
  import opened Hashing
  import opened Chains

  /** The error Get reports for an absent key: it carries the key that was not found. */
  datatype NonExistentKey<K> = NonExistentKey(badKey: K)

  datatype Result<T, E> = Ok(value: T) | Err(error: E)

  class LinkedHashedTable<K(==, !new), V> {
    /** The number of entries in the table. */
    var counter: int
    /** The capacity: the number of buckets. */
    var maxSize: int
    /** The load threshold, num / den. */
    const num: nat
    const den: nat
    /** The buckets. */
    var list: array<seq<Entry<K, V>>>
    /** The hash code of a key. */
    const hash: K -> int

    ghost var Contents: map<K, V>

    /**
     * The table invariant: one bucket per unit of capacity, every entry in the bucket
     * its key hashes to, no key twice, `counter` the number of entries, and the
     * buckets answering every lookup as Contents does.
     */
    ghost predicate Valid()
      reads this, list
    {
      den >= 1 && maxSize >= 1 && list.Length == maxSize &&
      WellFormed(list[..], maxSize, hash) &&
      counter == |Flatten(list[..])| && counter == |Contents| &&
      Abstracts(list[..], maxSize, hash, Contents)
    }

    /** An empty table of `max` buckets with load threshold num / den. */
    constructor (max: int, num: nat, den: nat, hash: K -> int)
      requires max >= 1 && den >= 1
      ensures Valid() && fresh(list)
      ensures maxSize == max && this.num == num && this.den == den && this.hash == hash
      ensures counter == 0 && Contents == map[]
      ensures forall i :: 0 <= i < list.Length ==> list[i] == []
    {
      maxSize := max;
      this.num, this.den := num, den;
      this.hash := hash;
      counter := 0;
      list := new seq<Entry<K, V>>[max];
      Contents := map[];
      new;
      var i := 0;
      while i < list.Length
        invariant 0 <= i <= list.Length
        invariant forall j :: 0 <= j < i ==> list[j] == []
        modifies list
      {
        list[i] := [];
        i := i + 1;
      }
      FlattenEmpty(list[..]);
    }

    /**
     * The growth policy: when counter >= maxSize * threshold, grow the capacity by
     * round(maxSize * threshold) and move every entry, in enumeration order, to the
     * end of its bucket under the new capacity.
     */
    method Rehashing()
      requires Valid()
      modifies this
      ensures Valid()
      ensures Contents == old(Contents) && counter == old(counter)
      ensures if GrowthDue(old(counter), old(maxSize), num, den)
        then maxSize == NextCapacity(old(maxSize), num, den) && fresh(list) &&
             list[..] == Redistribute(old(Flatten(list[..])), maxSize, hash)
        else maxSize == old(maxSize) && list == old(list)
    {
      if GrowthDue(counter, maxSize, num, den) {
        var newSize := NextCapacity(maxSize, num, den);
        var temporary := Redistributed(list, newSize);
        RehashKeepsInvariant(list[..], maxSize, newSize, hash, Contents);
        maxSize := newSize;
        list := temporary;
      }
    }

    /**
     * The copying loops of Rehashing: a fresh array of `size` empty buckets, then every
     * entry of `source`, bucket by bucket and in order, appended to the end of its new bucket.
     */
    method Redistributed(source: array<seq<Entry<K, V>>>, size: int) returns (temporary: array<seq<Entry<K, V>>>)
      requires size >= 1
      ensures fresh(temporary)
      ensures temporary[..] == Redistribute(Flatten(source[..]), size, hash)
    {
      ghost var before := source[..];
      temporary := new seq<Entry<K, V>>[size];
      var i := 0;
      while i < temporary.Length
        invariant 0 <= i <= temporary.Length
        invariant forall b :: 0 <= b < i ==> temporary[b] == []
        modifies temporary
      {
        temporary[i] := [];
        i := i + 1;
      }
      assert temporary[..] == Redistribute(Flatten(before[..0]), size, hash);
      i := 0;
      while i < source.Length
        invariant 0 <= i <= source.Length
        invariant temporary[..] == Redistribute(Flatten(before[..i]), size, hash)
        modifies temporary
      {
        var bucket := source[i];
        ghost var prefix := Flatten(before[..i]);
        var j := 0;
        assert prefix + bucket[..0] == prefix;
        while j < |bucket|
          invariant 0 <= j <= |bucket|
          invariant temporary[..] == Redistribute(prefix + bucket[..j], size, hash)
          modifies temporary
        {
          var tempKey := bucket[j].key;
          var tempVal := bucket[j].value;
          var position := BucketIndex(hash(tempKey), size);
          ghost var moved := prefix + bucket[..j + 1];
          assert moved[..|moved| - 1] == prefix + bucket[..j] && moved[|moved| - 1] == Entry(tempKey, tempVal);
          RedistributeSnoc(moved, size, hash);
          temporary[position] := temporary[position] + [Entry(tempKey, tempVal)];
          j := j + 1;
        }
        assert bucket[..j] == bucket;
        assert before[..i + 1][..i] == before[..i];
        i := i + 1;
      }
      assert before[..i] == before;
    }

    /**
     * Stores k -> v: replaces the value of the entry with key k in place, or appends a
     * new entry to the end of k's bucket and counts it; then applies the growth policy.
     */
    method Put(k: K, v: V)
      requires Valid()
      modifies this, list
      ensures Valid()
      ensures Contents == old(Contents)[k := v]
      ensures counter == old(counter) + if k in old(Contents) then 0 else 1
      ensures var stored := Store(old(list[..]), old(maxSize), hash, k, v);
        if GrowthDue(counter, old(maxSize), num, den)
        then maxSize == NextCapacity(old(maxSize), num, den) && fresh(list) &&
             list[..] == Redistribute(Flatten(stored), maxSize, hash)
        else maxSize == old(maxSize) && list == old(list) && list[..] == stored
    {
      var duplicateFound := false;
      var position := BucketIndex(hash(k), maxSize);
      ghost var bucket := list[position];
      ghost var stored := Store(list[..], maxSize, hash, k, v);
      var i := 0;
      while i < |list[position]|
        invariant 0 <= i <= |bucket|
        invariant list[..] == old(list[..])
        invariant forall j :: 0 <= j < i ==> bucket[j].key != k
        modifies list
      {
        if list[position][i].key == k {
          UpsertReplaces(bucket, k, v, i);
          list[position] := list[position][i := Entry(k, v)];
          duplicateFound := true;
          break;
        }
        i := i + 1;
      }
      if !duplicateFound {
        UpsertAppends(bucket, k, v);
        list[position] := list[position] + [Entry(k, v)];
        counter := counter + 1;
      }
      assert list[..] == stored;
      StoreKeepsInvariant(old(list[..]), maxSize, hash, Contents, k, v);
      Contents := Contents[k := v];
      Rehashing();
    }

    /** Whether some entry has key k: a scan of k's bucket. */
    method Contains(k: K) returns (keyFound: bool)
      requires Valid()
      ensures keyFound <==> k in Contents
    {
      keyFound := false;
      var position := BucketIndex(hash(k), maxSize);
      var bucket := list[position];
      var i := 0;
      while i < |bucket|
        invariant 0 <= i <= |bucket|
        invariant forall j :: 0 <= j < i ==> bucket[j].key != k
      {
        if bucket[i].key == k {
          keyFound := true;
          break;
        }
        i := i + 1;
      }
      assert Find(list[..], maxSize, hash, k) == Lookup(bucket, k);
      LookupFound(bucket, k);
    }

    /** The value stored for k, or the NonExistentKey error carrying k when there is none. */
    method Get(k: K) returns (r: Result<V, NonExistentKey<K>>)
      requires Valid()
      ensures k in Contents ==> r == Ok(Contents[k])
      ensures k !in Contents ==> r == Err(NonExistentKey(k))
    {
      var position := BucketIndex(hash(k), maxSize);
      var bucket := list[position];
      assert Find(list[..], maxSize, hash, k) == Lookup(bucket, k);
      var i := 0;
      while i < |bucket|
        invariant 0 <= i <= |bucket|
        invariant forall j :: 0 <= j < i ==> bucket[j].key != k
      {
        if bucket[i].key == k {
          LookupFirst(bucket, k, i);
          return Ok(bucket[i].value);
        }
        i := i + 1;
      }
      LookupFound(bucket, k);
      return Err(NonExistentKey(k));
    }

    /**
     * Every key of the table, bucket by bucket in index order and, within a bucket, front
     * to back (insertion order for entries added since the last rehash; a rehash re-lists
     * each bucket in the old table's traversal order): each key of Contents exactly once.
     */
    method GetEnumerator() returns (keys: seq<K>)
      requires Valid()
      ensures keys == KeysOf(Flatten(list[..]))
      ensures |keys| == counter
      ensures forall k :: k in keys <==> k in Contents
      ensures forall a, b :: 0 <= a < b < |keys| ==> keys[a] != keys[b]
    {
      keys := [];
      ghost var bs := list[..];
      var i := 0;
      while i < list.Length
        invariant 0 <= i <= list.Length
        invariant keys == KeysOf(Flatten(bs[..i]))
      {
        var bucket := list[i];
        ghost var prefix := Flatten(bs[..i]);
        var j := 0;
        assert prefix + bucket[..0] == prefix;
        while j < |bucket|
          invariant 0 <= j <= |bucket|
          invariant keys == KeysOf(prefix + bucket[..j])
        {
          assert prefix + bucket[..j + 1] == (prefix + bucket[..j]) + [bucket[j]];
          KeysOfSnoc(prefix + bucket[..j], bucket[j]);
          keys := keys + [bucket[j].key];
          j := j + 1;
        }
        assert bucket[..j] == bucket;
        assert bs[..i + 1][..i] == bs[..i];
        i := i + 1;
      }
      assert bs[..i] == bs;
      EnumerationKeys(list[..], maxSize, hash, Contents);
    }
  }

  /** Creates tables; the defaults are a capacity of 100 and a load threshold of 0.75. */
  class TableFactory {
    static method Make<K(==, !new), V>(hash: K -> int, capacity: int := 100, num: nat := 3, den: nat := 4)
      returns (t: LinkedHashedTable<K, V>)
      requires capacity >= 1 && den >= 1
      ensures fresh(t) && fresh(t.list) && t.Valid()
      ensures t.maxSize == capacity && t.num == num && t.den == den && t.hash == hash
      ensures t.counter == 0 && t.Contents == map[]
    {
      t := new LinkedHashedTable(capacity, num, den, hash);
    }
  }
}

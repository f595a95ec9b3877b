/**
 * The contents of a LinkedHashedTable as values: an entry is a key/value pair, a bucket
 * (chain) is the sequence of its entries in the order they were added to it (by Put, or
 * by a rehash re-listing the old table), and the table's storage is a sequence of buckets. The functions here are the specifications the table's methods
 * are proved against; the lemmas are what the table's invariant needs of them.
 */
module Chains {
  import opened Hashing

  datatype Entry<K, V> = Entry(key: K, value: V)

  datatype Option<T> = None | Some(value: T)

  /** The value of the first entry of chain b whose key is k, scanning from the front. */
  ghost function Lookup<K, V>(b: seq<Entry<K, V>>, k: K): Option<V>
  {
    if |b| == 0 then None
    else if b[0].key == k then Some(b[0].value)
    else Lookup(b[1..], k)
  }

  ghost predicate HasKey<K, V>(b: seq<Entry<K, V>>, k: K) {
    exists j :: 0 <= j < |b| && b[j].key == k
  }

  /** No key occurs twice in b. */
  ghost predicate DistinctKeys<K, V>(b: seq<Entry<K, V>>) {
    forall i, j :: 0 <= i < j < |b| ==> b[i].key != b[j].key
  }

  /**
   * Chain b after storing k -> v: the first entry with key k gets the value v,
   * and when there is none, Entry(k, v) goes at the end.
   */
  ghost function Upsert<K, V>(b: seq<Entry<K, V>>, k: K, v: V): (r: seq<Entry<K, V>>)
    ensures |b| <= |r| <= |b| + 1
    ensures Lookup(r, k) == Some(v)
  {
    if |b| == 0 then [Entry(k, v)]
    else if b[0].key == k then [Entry(k, v)] + b[1..]
    else
      var rest := Upsert(b[1..], k, v);
      assert ([b[0]] + rest)[1..] == rest;
      [b[0]] + rest
  }

  /** All entries of the buckets bs, bucket by bucket, each bucket front to back. */
  ghost function Flatten<K, V>(bs: seq<seq<Entry<K, V>>>): seq<Entry<K, V>>
  {
    if |bs| == 0 then [] else Flatten(bs[..|bs| - 1]) + bs[|bs| - 1]
  }

  /** The keys of es, in order. */
  ghost function KeysOf<K, V>(es: seq<Entry<K, V>>): seq<K>
  {
    seq(|es|, t requires 0 <= t < |es| => es[t].key)
  }

  /** The entries of es (in their order) that belong to bucket b of a table of m buckets. */
  ghost function Chain<K, V>(es: seq<Entry<K, V>>, m: int, hash: K -> int, b: int): (r: seq<Entry<K, V>>)
    requires m >= 1
    ensures |r| <= |es|
  {
    if |es| == 0 then []
    else
      var last := es[|es| - 1];
      Chain(es[..|es| - 1], m, hash, b) + (if BucketIndex(hash(last.key), m) == b then [last] else [])
  }

  /** The m buckets obtained by adding the entries es, in order, to m empty buckets. */
  ghost function Redistribute<K, V>(es: seq<Entry<K, V>>, m: int, hash: K -> int): (r: seq<seq<Entry<K, V>>>)
    requires m >= 1
    ensures |r| == m
  {
    seq(m, b => Chain(es, m, hash, b))
  }

  /** Every entry of bs sits in the bucket its key hashes to, for a table of m buckets. */
  ghost predicate Placed<K, V>(bs: seq<seq<Entry<K, V>>>, m: int, hash: K -> int)
    requires m >= 1
  {
    forall i, j :: 0 <= i < |bs| && 0 <= j < |bs[i]| ==> BucketIndex(hash(bs[i][j].key), m) == i
  }

  /** The storage invariant: m buckets, every entry in its bucket, no key twice in a bucket. */
  ghost predicate WellFormed<K, V>(bs: seq<seq<Entry<K, V>>>, m: int, hash: K -> int) {
    m >= 1 && |bs| == m && Placed(bs, m, hash) &&
    forall i :: 0 <= i < |bs| ==> DistinctKeys(bs[i])
  }

  /** What the table answers for k: the lookup of k in the bucket k hashes to. */
  ghost function Find<K, V>(bs: seq<seq<Entry<K, V>>>, m: int, hash: K -> int, k: K): Option<V>
    requires |bs| == m >= 1
  {
    Lookup(bs[BucketIndex(hash(k), m)], k)
  }

  /** Contents c is what the buckets bs answer: every key finds its value in c, and absent keys nothing. */
  ghost predicate Abstracts<K(!new), V>(bs: seq<seq<Entry<K, V>>>, m: int, hash: K -> int, c: map<K, V>)
    requires |bs| == m >= 1
  {
    forall k {:trigger Find(bs, m, hash, k)} :: Find(bs, m, hash, k) == if k in c then Some(c[k]) else None
  }

  /** The buckets after Put has stored k -> v, before any rehash: only k's bucket changes. */
  ghost function Store<K, V>(bs: seq<seq<Entry<K, V>>>, m: int, hash: K -> int, k: K, v: V): seq<seq<Entry<K, V>>>
    requires |bs| == m >= 1
  {
    var p := BucketIndex(hash(k), m);
    bs[p := Upsert(bs[p], k, v)]
  }

  // ---------------------------------------------------------------------------
  // Multiset bookkeeping

  lemma MultisetAddBoth<T>(a: multiset<T>, b: multiset<T>, c: multiset<T>, d: multiset<T>, e: multiset<T>)
    requires a + c == b + d
    ensures (a + e) + c == (b + e) + d
  {
    forall z
      ensures ((a + e) + c)[z] == ((b + e) + d)[z]
    {
      assert (a + c)[z] == (b + d)[z];
    }
  }

  lemma MultisetCancel<T>(a: multiset<T>, b: multiset<T>, d: multiset<T>, c: multiset<T>)
    requires a + c == b + (d + c)
    ensures a == b + d
  {
    forall z
      ensures a[z] == (b + d)[z]
    {
      assert (a + c)[z] == (b + (d + c))[z];
    }
  }

  // ---------------------------------------------------------------------------
  // Lookup in one chain

  /** Lookup finds something exactly when some entry carries the key. */
  lemma {:induction false} LookupFound<K, V>(b: seq<Entry<K, V>>, k: K)
    ensures Lookup(b, k).Some? <==> HasKey(b, k)
  {
    if |b| > 0 && b[0].key != k {
      LookupFound(b[1..], k);
      if HasKey(b, k) {
        var j :| 0 <= j < |b| && b[j].key == k;
        assert b[1..][j - 1].key == k;
      }
      if HasKey(b[1..], k) {
        var j :| 0 <= j < |b[1..]| && b[1..][j].key == k;
        assert b[j + 1].key == k;
      }
    }
  }

  /** When the first entry with key k is at position i, Lookup returns its value. */
  lemma {:induction false} LookupFirst<K, V>(b: seq<Entry<K, V>>, k: K, i: nat)
    requires i < |b| && b[i].key == k
    requires forall j :: 0 <= j < i ==> b[j].key != k
    ensures Lookup(b, k) == Some(b[i].value)
  {
    if i > 0 {
      LookupFirst(b[1..], k, i - 1);
    }
  }

  /** Looking k up in xs + ys: the answer from xs when xs has one, otherwise from ys. */
  lemma {:induction false} LookupAppend<K, V>(xs: seq<Entry<K, V>>, ys: seq<Entry<K, V>>, k: K)
    ensures Lookup(xs + ys, k) == if Lookup(xs, k).Some? then Lookup(xs, k) else Lookup(ys, k)
  {
    if |xs| > 0 {
      assert (xs + ys)[0] == xs[0];
      assert (xs + ys)[1..] == xs[1..] + ys;
      LookupAppend(xs[1..], ys, k);
    } else {
      assert xs + ys == ys;
    }
  }

  // ---------------------------------------------------------------------------
  // Upsert: the bucket operation of Put

  /** Upsert overwrites, in place, the first entry with key k and leaves every other entry alone. */
  lemma {:induction false} UpsertReplaces<K, V>(b: seq<Entry<K, V>>, k: K, v: V, i: nat)
    requires i < |b| && b[i].key == k
    requires forall j :: 0 <= j < i ==> b[j].key != k
    ensures Upsert(b, k, v) == b[i := Entry(k, v)]
  {
    if i > 0 {
      UpsertReplaces(b[1..], k, v, i - 1);
      assert b[1..][i - 1 := Entry(k, v)] == b[i := Entry(k, v)][1..];
    }
  }

  /** Upsert of an absent key appends one entry at the end of the chain. */
  lemma {:induction false} UpsertAppends<K, V>(b: seq<Entry<K, V>>, k: K, v: V)
    requires forall j :: 0 <= j < |b| ==> b[j].key != k
    ensures Upsert(b, k, v) == b + [Entry(k, v)]
  {
    if |b| > 0 {
      UpsertAppends(b[1..], k, v);
      assert [b[0]] + (b[1..] + [Entry(k, v)]) == b + [Entry(k, v)];
    }
  }

  /** After Upsert, k maps to v and every other key keeps its answer. */
  lemma {:induction false} LookupUpsert<K, V>(b: seq<Entry<K, V>>, k: K, v: V, k': K)
    ensures Lookup(Upsert(b, k, v), k') == if k' == k then Some(v) else Lookup(b, k')
  {
    if |b| > 0 && b[0].key != k {
      LookupUpsert(b[1..], k, v, k');
      assert ([b[0]] + Upsert(b[1..], k, v))[1..] == Upsert(b[1..], k, v);
    } else if |b| > 0 {
      assert ([Entry(k, v)] + b[1..])[1..] == b[1..];
    }
  }

  /**
   * Upsert adds nothing but Entry(k, v), and the chain grows by one entry exactly
   * when k was absent.
   */
  lemma {:induction false} UpsertMembers<K, V>(b: seq<Entry<K, V>>, k: K, v: V)
    ensures forall e :: e in Upsert(b, k, v) ==> e == Entry(k, v) || e in b
    ensures |Upsert(b, k, v)| == |b| + (if HasKey(b, k) then 0 else 1)
  {
    if |b| > 0 {
      if b[0].key != k {
        UpsertMembers(b[1..], k, v);
        assert HasKey(b, k) <==> HasKey(b[1..], k) by {
          LookupFound(b, k);
          LookupFound(b[1..], k);
        }
      } else {
        assert HasKey(b, k) by { assert b[0].key == k; }
      }
    }
  }

  /** Upsert keeps the keys of a chain distinct. */
  lemma {:induction false} UpsertDistinct<K, V>(b: seq<Entry<K, V>>, k: K, v: V)
    requires DistinctKeys(b)
    ensures DistinctKeys(Upsert(b, k, v))
  {
    if |b| > 0 {
      var u := Upsert(b, k, v);
      if b[0].key != k {
        var rest := Upsert(b[1..], k, v);
        UpsertDistinct(b[1..], k, v);
        UpsertMembers(b[1..], k, v);
        assert u == [b[0]] + rest;
        forall j | 0 < j < |u|
          ensures u[0].key != u[j].key
        {
          assert u[j] == rest[j - 1] && rest[j - 1] in rest;
        }
      } else {
        assert u == [Entry(k, v)] + b[1..];
      }
    }
  }

  // ---------------------------------------------------------------------------
  // Flatten: the whole table as one sequence, in enumeration order

  lemma {:induction false} FlattenMembers<K, V>(bs: seq<seq<Entry<K, V>>>, e: Entry<K, V>)
    ensures e in Flatten(bs) <==> exists i :: 0 <= i < |bs| && e in bs[i]
  {
    if |bs| > 0 {
      var init := bs[..|bs| - 1];
      FlattenMembers(init, e);
      if e in Flatten(bs) && e !in bs[|bs| - 1] {
        var i :| 0 <= i < |init| && e in init[i];
        assert e in bs[i];
      }
      if exists i :: 0 <= i < |bs| && e in bs[i] {
        var i :| 0 <= i < |bs| && e in bs[i];
        if i < |bs| - 1 {
          assert e in init[i];
        }
      }
    }
  }

  /** Replacing bucket i by x replaces bs[i]'s entries by x's in the flattened table. */
  lemma {:induction false} FlattenUpdate<K, V>(bs: seq<seq<Entry<K, V>>>, i: nat, x: seq<Entry<K, V>>)
    requires i < |bs|
    ensures multiset(Flatten(bs[i := x])) + multiset(bs[i]) == multiset(Flatten(bs)) + multiset(x)
  {
    var n := |bs| - 1;
    var bs' := bs[i := x];
    assert Flatten(bs) == Flatten(bs[..n]) + bs[n];
    assert Flatten(bs') == Flatten(bs'[..n]) + bs'[n];
    if i == n {
      assert bs'[..n] == bs[..n];
    } else {
      assert bs'[..n] == bs[..n][i := x];
      assert bs[..n][i] == bs[i] && bs'[n] == bs[n];
      FlattenUpdate(bs[..n], i, x);
      var old', new' := multiset(Flatten(bs[..n])), multiset(Flatten(bs'[..n]));
      assert multiset(Flatten(bs')) == new' + multiset(bs[n]);
      assert multiset(Flatten(bs)) == old' + multiset(bs[n]);
      MultisetAddBoth(new', old', multiset(bs[i]), multiset(x), multiset(bs[n]));
    }
  }

  /** Lookup in the flattened table agrees with lookup in the bucket the key hashes to. */
  lemma {:induction false} FlattenLookup<K, V>(bs: seq<seq<Entry<K, V>>>, m: int, hash: K -> int, k: K)
    requires m >= 1 && Placed(bs, m, hash)
    ensures Lookup(Flatten(bs), k) ==
      if BucketIndex(hash(k), m) < |bs| then Lookup(bs[BucketIndex(hash(k), m)], k) else None
  {
    if |bs| > 0 {
      var n := |bs| - 1;
      var init := bs[..n];
      assert Placed(init, m, hash) by {
        forall i, e: Entry<K, V> | 0 <= i < |init| && e in init[i]
          ensures BucketIndex(hash(e.key), m) == i
        {
          assert e in bs[i];
        }
      }
      FlattenLookup(init, m, hash, k);
      LookupAppend(Flatten(init), bs[n], k);
      if BucketIndex(hash(k), m) != n {
        LookupFound(bs[n], k);
      } else {
        LookupFound(Flatten(init), k);
        forall j | 0 <= j < |Flatten(init)|
          ensures Flatten(init)[j].key != k
        {
          FlattenMembers(init, Flatten(init)[j]);
        }
      }
    }
  }

  /**
   * No key appears twice in the whole table: distinct keys within each bucket, plus every
   * entry in the bucket of its key, give distinct keys over the flattened table.
   */
  lemma {:induction false} FlattenDistinct<K, V>(bs: seq<seq<Entry<K, V>>>, m: int, hash: K -> int)
    requires m >= 1 && Placed(bs, m, hash)
    requires forall i :: 0 <= i < |bs| ==> DistinctKeys(bs[i])
    ensures DistinctKeys(Flatten(bs))
  {
    if |bs| > 0 {
      var n := |bs| - 1;
      var init := bs[..n];
      assert Placed(init, m, hash) by {
        forall i, e: Entry<K, V> | 0 <= i < |init| && e in init[i]
          ensures BucketIndex(hash(e.key), m) == i
        {
          assert e in bs[i];
        }
      }
      FlattenDistinct(init, m, hash);
      var xs, ys := Flatten(init), bs[n];
      assert Flatten(bs) == xs + ys;
      forall a, b | 0 <= a < |xs| && 0 <= b < |ys|
        ensures xs[a].key != ys[b].key
      {
        FlattenMembers(init, xs[a]);
        assert ys[b] in bs[n];
      }
    }
  }

  /** The keys enumerated from es are those of its entries, with no repetition when they are distinct. */
  lemma KeysOfFacts<K, V>(es: seq<Entry<K, V>>)
    ensures forall k :: k in KeysOf(es) <==> HasKey(es, k)
    ensures DistinctKeys(es) ==> forall a, b :: 0 <= a < b < |es| ==> KeysOf(es)[a] != KeysOf(es)[b]
  {
    forall k | HasKey(es, k) ensures k in KeysOf(es) {
      var j :| 0 <= j < |es| && es[j].key == k;
      assert KeysOf(es)[j] == k;
    }
  }

  // ---------------------------------------------------------------------------
  // Chain and Redistribute: rehashing

  /** A chain holds only entries of es, each hashing to its bucket. */
  lemma {:induction false} ChainMembers<K, V>(es: seq<Entry<K, V>>, m: int, hash: K -> int, b: int, e: Entry<K, V>)
    requires m >= 1
    ensures e in Chain(es, m, hash, b) ==> e in es && BucketIndex(hash(e.key), m) == b
  {
    if |es| > 0 {
      ChainMembers(es[..|es| - 1], m, hash, b, e);
      assert es == es[..|es| - 1] + [es[|es| - 1]];
    }
  }

  /** Picking out one bucket's entries keeps distinct keys distinct. */
  lemma {:induction false} ChainDistinct<K, V>(es: seq<Entry<K, V>>, m: int, hash: K -> int, b: int)
    requires m >= 1 && DistinctKeys(es)
    ensures DistinctKeys(Chain(es, m, hash, b))
  {
    if |es| > 0 {
      var n := |es| - 1;
      var init := es[..n];
      ChainDistinct(init, m, hash, b);
      var c := Chain(init, m, hash, b);
      if BucketIndex(hash(es[n].key), m) == b {
        forall a | 0 <= a < |c|
          ensures c[a].key != es[n].key
        {
          ChainMembers(init, m, hash, b, c[a]);
          var j :| 0 <= j < n && init[j] == c[a];
          assert es[j] == c[a];
        }
      }
    }
  }

  /** Every entry with key k lands in k's bucket, so that bucket answers for k as es did. */
  lemma {:induction false} ChainLookup<K, V>(es: seq<Entry<K, V>>, m: int, hash: K -> int, k: K)
    requires m >= 1
    ensures Lookup(Chain(es, m, hash, BucketIndex(hash(k), m)), k) == Lookup(es, k)
  {
    if |es| > 0 {
      var n := |es| - 1;
      var init, last := es[..n], es[n];
      var b := BucketIndex(hash(k), m);
      ChainLookup(init, m, hash, k);
      assert es == init + [last];
      LookupAppend(init, [last], k);
      var tail := if BucketIndex(hash(last.key), m) == b then [last] else [];
      LookupAppend(Chain(init, m, hash, b), tail, k);
    }
  }

  /** Adding one more entry to the redistribution appends it to its own bucket only. */
  lemma RedistributeSnoc<K, V>(es: seq<Entry<K, V>>, m: int, hash: K -> int)
    requires m >= 1 && |es| > 0
    ensures var n, p := |es| - 1, BucketIndex(hash(es[|es| - 1].key), m);
      Redistribute(es, m, hash) ==
      Redistribute(es[..n], m, hash)[p := Redistribute(es[..n], m, hash)[p] + [es[n]]]
  {
    var n, p := |es| - 1, BucketIndex(hash(es[|es| - 1].key), m);
    var before := Redistribute(es[..n], m, hash);
    var after := before[p := before[p] + [es[n]]];
    forall b | 0 <= b < m
      ensures Redistribute(es, m, hash)[b] == after[b]
    {
      assert Redistribute(es, m, hash)[b] == Chain(es, m, hash, b);
      assert before[b] == Chain(es[..n], m, hash, b);
    }
  }

  /** Rehashing neither loses nor duplicates an entry: the new buckets hold exactly es. */
  lemma {:induction false} RedistributePermutes<K, V>(es: seq<Entry<K, V>>, m: int, hash: K -> int)
    requires m >= 1
    ensures multiset(Flatten(Redistribute(es, m, hash))) == multiset(es)
    ensures |Flatten(Redistribute(es, m, hash))| == |es|
  {
    if |es| == 0 {
      FlattenEmpty(Redistribute(es, m, hash));
    } else {
      RedistributePermutes(es[..|es| - 1], m, hash);
      RedistributeStep(es, m, hash);
    }
    assert |multiset(Flatten(Redistribute(es, m, hash)))| == |Flatten(Redistribute(es, m, hash))|;
  }

  /** The inductive step of RedistributePermutes: one more entry on each side. */
  lemma RedistributeStep<K, V>(es: seq<Entry<K, V>>, m: int, hash: K -> int)
    requires m >= 1 && |es| > 0
    requires multiset(Flatten(Redistribute(es[..|es| - 1], m, hash))) == multiset(es[..|es| - 1])
    ensures multiset(Flatten(Redistribute(es, m, hash))) == multiset(es)
  {
    var n := |es| - 1;
    var prev, e := Redistribute(es[..n], m, hash), es[n];
    var p := BucketIndex(hash(e.key), m);
    calc {
      multiset(Flatten(Redistribute(es, m, hash)));
      == { RedistributeSnoc(es, m, hash); }
      multiset(Flatten(prev[p := prev[p] + [e]]));
      == { FlattenAppendTo(prev, p, e); }
      multiset(Flatten(prev)) + multiset{e};
      ==
      multiset(es[..n]) + multiset{e};
      == { assert es == es[..n] + [e]; }
      multiset(es);
    }
  }

  /** Appending e to one bucket adds e, and nothing else, to the flattened table. */
  lemma FlattenAppendTo<K, V>(bs: seq<seq<Entry<K, V>>>, p: nat, e: Entry<K, V>)
    requires p < |bs|
    ensures multiset(Flatten(bs[p := bs[p] + [e]])) == multiset(Flatten(bs)) + multiset{e}
  {
    FlattenUpdate(bs, p, bs[p] + [e]);
    var chain := multiset(bs[p]);
    assert multiset(bs[p] + [e]) == multiset{e} + chain;
    MultisetCancel(multiset(Flatten(bs[p := bs[p] + [e]])), multiset(Flatten(bs)), multiset{e}, chain);
  }

  /** Buckets that are all empty hold nothing. */
  lemma {:induction false} FlattenEmpty<K, V>(bs: seq<seq<Entry<K, V>>>)
    requires forall i :: 0 <= i < |bs| ==> bs[i] == []
    ensures Flatten(bs) == []
  {
    if |bs| > 0 {
      FlattenEmpty(bs[..|bs| - 1]);
    }
  }

  /** The redistribution of entries with distinct keys satisfies the storage invariant. */
  lemma RedistributeWellFormed<K, V>(es: seq<Entry<K, V>>, m: int, hash: K -> int)
    requires m >= 1 && DistinctKeys(es)
    ensures WellFormed(Redistribute(es, m, hash), m, hash)
  {
    var bs := Redistribute(es, m, hash);
    forall i, e: Entry<K, V> | 0 <= i < |bs| && e in bs[i]
      ensures BucketIndex(hash(e.key), m) == i
    {
      ChainMembers(es, m, hash, i, e);
    }
    forall i | 0 <= i < |bs|
      ensures DistinctKeys(bs[i])
    {
      ChainDistinct(es, m, hash, i);
    }
  }

  /**
   * Rehashing a well-formed table into m' buckets changes no answer: every key finds
   * in its new bucket what it found in its old one.
   */
  lemma RehashPreservesFind<K, V>(bs: seq<seq<Entry<K, V>>>, m: int, m': int, hash: K -> int, k: K)
    requires WellFormed(bs, m, hash) && m' >= 1
    ensures Find(Redistribute(Flatten(bs), m', hash), m', hash, k) == Find(bs, m, hash, k)
  {
    ChainLookup(Flatten(bs), m', hash, k);
    FlattenLookup(bs, m, hash, k);
  }

  // ---------------------------------------------------------------------------
  // Store: the bucket array after the insert-or-replace step of Put

  /** After the store, k finds v, and every other key finds what it found before. */
  lemma StoreFind<K, V>(bs: seq<seq<Entry<K, V>>>, m: int, hash: K -> int, k: K, v: V, k': K)
    requires |bs| == m >= 1
    ensures Find(Store(bs, m, hash, k, v), m, hash, k') == if k' == k then Some(v) else Find(bs, m, hash, k')
  {
    var p := BucketIndex(hash(k), m);
    if BucketIndex(hash(k'), m) == p {
      LookupUpsert(bs[p], k, v, k');
    }
  }

  /**
   * The store keeps the storage invariant, and the table holds one more entry exactly
   * when k was absent from its bucket.
   */
  lemma StoreWellFormed<K, V>(bs: seq<seq<Entry<K, V>>>, m: int, hash: K -> int, k: K, v: V)
    requires WellFormed(bs, m, hash)
    ensures WellFormed(Store(bs, m, hash, k, v), m, hash)
    ensures |Flatten(Store(bs, m, hash, k, v))| ==
      |Flatten(bs)| + if HasKey(bs[BucketIndex(hash(k), m)], k) then 0 else 1
  {
    var p := BucketIndex(hash(k), m);
    var bs' := Store(bs, m, hash, k, v);
    UpsertMembers(bs[p], k, v);
    UpsertDistinct(bs[p], k, v);
    assert Placed(bs', m, hash) by {
      forall i, e: Entry<K, V> | 0 <= i < |bs'| && e in bs'[i]
        ensures BucketIndex(hash(e.key), m) == i
      {
        if i == p && e != Entry(k, v) {
          assert e in bs[p];
        } else if i != p {
          assert e in bs[i];
        }
      }
    }
    FlattenUpdateLength(bs, p, Upsert(bs[p], k, v));
  }

  /** Replacing bucket i by x changes the number of entries by |x| - |bs[i]|. */
  lemma FlattenUpdateLength<K, V>(bs: seq<seq<Entry<K, V>>>, i: nat, x: seq<Entry<K, V>>)
    requires i < |bs|
    ensures |Flatten(bs[i := x])| + |bs[i]| == |Flatten(bs)| + |x|
  {
    FlattenUpdate(bs, i, x);
    assert |multiset(Flatten(bs[i := x])) + multiset(bs[i])| == |multiset(Flatten(bs)) + multiset(x)|;
  }

  /** A key is in the flattened table exactly when the table finds it. */
  lemma FlattenHasKey<K, V>(bs: seq<seq<Entry<K, V>>>, m: int, hash: K -> int, k: K)
    requires WellFormed(bs, m, hash)
    ensures HasKey(Flatten(bs), k) <==> Find(bs, m, hash, k).Some?
  {
    FlattenLookup(bs, m, hash, k);
    LookupFound(Flatten(bs), k);
  }

  /** One more entry adds its key at the end of the key sequence. */
  lemma KeysOfSnoc<K, V>(es: seq<Entry<K, V>>, e: Entry<K, V>)
    ensures KeysOf(es + [e]) == KeysOf(es) + [e.key]
  {
  }

  // ---------------------------------------------------------------------------
  // The table invariant through each operation

  /**
   * Put's store step keeps the invariant and the abstraction: the buckets now stand
   * for c[k := v], and the entry count follows the map's size.
   */
  lemma StoreKeepsInvariant<K(!new), V>(bs: seq<seq<Entry<K, V>>>, m: int, hash: K -> int, c: map<K, V>, k: K, v: V)
    requires WellFormed(bs, m, hash) && Abstracts(bs, m, hash, c) && |Flatten(bs)| == |c|
    ensures WellFormed(Store(bs, m, hash, k, v), m, hash)
    ensures Abstracts(Store(bs, m, hash, k, v), m, hash, c[k := v])
    ensures |Flatten(Store(bs, m, hash, k, v))| == |c[k := v]| == |c| + if k in c then 0 else 1
    ensures HasKey(bs[BucketIndex(hash(k), m)], k) <==> k in c
  {
    var p := BucketIndex(hash(k), m);
    assert Find(bs, m, hash, k) == Lookup(bs[p], k);
    LookupFound(bs[p], k);
    StoreWellFormed(bs, m, hash, k, v);
    forall k' {
      StoreFind(bs, m, hash, k, v, k');
    }
  }

  /**
   * Rehashing into m' buckets keeps the invariant, the entry count and the abstraction:
   * nothing is lost, and every lookup is answered as before.
   */
  lemma RehashKeepsInvariant<K(!new), V>(bs: seq<seq<Entry<K, V>>>, m: int, m': int, hash: K -> int, c: map<K, V>)
    requires WellFormed(bs, m, hash) && Abstracts(bs, m, hash, c) && m' >= 1
    ensures WellFormed(Redistribute(Flatten(bs), m', hash), m', hash)
    ensures |Flatten(Redistribute(Flatten(bs), m', hash))| == |Flatten(bs)|
    ensures Abstracts(Redistribute(Flatten(bs), m', hash), m', hash, c)
  {
    FlattenDistinct(bs, m, hash);
    RedistributeWellFormed(Flatten(bs), m', hash);
    RedistributePermutes(Flatten(bs), m', hash);
    forall k {
      RehashPreservesFind(bs, m, m', hash, k);
    }
  }

  /** The enumerated keys are exactly the keys of c, each once. */
  lemma EnumerationKeys<K(!new), V>(bs: seq<seq<Entry<K, V>>>, m: int, hash: K -> int, c: map<K, V>)
    requires WellFormed(bs, m, hash) && Abstracts(bs, m, hash, c)
    ensures forall k :: k in KeysOf(Flatten(bs)) <==> k in c
    ensures forall a, b :: 0 <= a < b < |Flatten(bs)| ==> KeysOf(Flatten(bs))[a] != KeysOf(Flatten(bs))[b]
  {
    KeysOfFacts(Flatten(bs));
    FlattenDistinct(bs, m, hash);
    forall k {
      FlattenHasKey(bs, m, hash, k);
    }
  }

  // ---------------------------------------------------------------------------
  // Order after a rehash

  /**
   * A bucket is not always in insertion order. With the integer identity hash, put 7, 0
   * and 1 into 4 buckets at threshold 3/4: the third put makes growth due, to 7 buckets.
   * The rehash visits old bucket 0 (key 0) before old bucket 3 (key 7), so new bucket 0
   * lists 0 before 7, although 7 was put first.
   */
  lemma RehashReorders()
    ensures var h := (x: int) => x;
      var s := Store(Store(Store([[], [], [], []], 4, h, 7, 70), 4, h, 0, 0), 4, h, 1, 10);
      GrowthDue(|Flatten(s)|, 4, 3, 4) && NextCapacity(4, 3, 4) == 7 &&
      Redistribute(Flatten(s), 7, h)[0] == [Entry(0, 0), Entry(7, 70)]
  {
    var h := (x: int) => x;
    var s := Store(Store(Store([[], [], [], []], 4, h, 7, 70), 4, h, 0, 0), 4, h, 1, 10);
    assert s == [[Entry(0, 0)], [Entry(1, 10)], [], [Entry(7, 70)]];
    var b0, b1 := [Entry(0, 0)], [Entry(1, 10)];
    assert [b0][..0] == [] && Flatten([b0]) == b0;
    assert [b0, b1][..1] == [b0] && Flatten([b0, b1]) == b0 + b1;
    assert [b0, b1, []][..2] == [b0, b1] && Flatten([b0, b1, []]) == b0 + b1;
    assert s[..3] == [b0, b1, []];
    var es := Flatten(s);
    assert es == [Entry(0, 0), Entry(1, 10), Entry(7, 70)];
    RoundHalfEvenUnique(12, 4, 3);
    assert es[..2][..1][..0] == [] && es[..2][..1] == [Entry(0, 0)] && es[..2] == [Entry(0, 0), Entry(1, 10)];
    assert BucketIndex(h(0), 7) == 0 && BucketIndex(h(1), 7) == 1 && BucketIndex(h(7), 7) == 0;
    assert Chain(es[..2], 7, h, 0) == [Entry(0, 0)];
    assert Chain(es, 7, h, 0) == [Entry(0, 0), Entry(7, 70)];
  }
}

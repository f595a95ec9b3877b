# LinkedHashedTable in Dafny

A model of the hash table of the `RIT_CS` C# program: `LinkedHashedTable<Key, Value>`,
a table with separate chaining built by `TableFactory.Make`. The table keeps an array of
buckets; each bucket is the list of key/value pairs whose keys hash to it, in the order
they were added to it: by `Put` since the last rehash, and by the rehash itself, which
re-lists the old table bucket by bucket. `Put` replaces the value of an existing key in place or appends a new pair to
the end of its bucket and counts it. It then applies the growth policy (`Rehashing`):
once `counter >= maxSize * threshold`, the capacity grows by
`Convert.ToInt32(maxSize * threshold)` and every pair moves to its bucket under the new
capacity. `Contains` and `Get` scan the key's bucket. `Get` reports an absent key with the
`NonExistentKey` error, which carries that key. The enumerator yields every key, bucket
by bucket.

Files:

- `hashing.dfy` (module `Hashing`): the arithmetic. It covers the C# truncating `%`, the
  bucket index `Math.Abs(hash % maxSize)`, round-half-to-even (`Convert.ToInt32`), the
  growth test and the new capacity.
- `chains.dfy` (module `Chains`): the table's contents as values. It defines entries,
  buckets, lookup and insert-or-replace in one bucket, the flattened enumeration order,
  and redistribution into a new number of buckets. Its lemmas carry the table invariant
  through each operation.
- `table.dfy` (module `HashTable`): the class `LinkedHashedTable` and the factory.
  - Its state is `counter`, `maxSize`, the threshold, and an array of buckets that Put
    updates in place.
  - A ghost map `Contents` is the map the table stands for.
  - `Valid()` ties the two together: every pair sits in the bucket its key hashes to, no
    key appears twice, `counter` is the number of pairs, and every lookup answers as
    `Contents` does.
  - Every method is proved against the functions of `Chains`.
- `scenarios.dfy` (module `Scenarios`): the program's two clients, its demonstration and
  its unit test, with the outcomes they report as correct proved as postconditions.

The data model: `Chains.Entry` is a `KeyValuePair`
(Project1_Part2/Program.cs:93-96), a key with its value. `HashTable.NonExistentKey` is the
exception of Project1_Part2/Program.cs:29-49; it carries the key that was not found, which
`Get` returns on its error path. A bucket is a sequence of entries, and the storage is an
array of buckets.

Conventions of the model:

- The threshold, a `double` in C#, is the exact rational `num / den` with `den >= 1`.
- The key type's `GetHashCode` is a function `hash: K -> int`, fixed when the table is
  made.
- Key equality (`Equals`) is Dafny's `==`.

## Model

| member | source | states |
|---|---|---|
| Hashing.Abs | Project1_Part2/Program.cs:185 | `Math.Abs`: the result is non-negative and is the argument or its negation |
| Hashing.TruncRem | Project1_Part2/Program.cs:160 | C#'s `%`: its magnitude is `Abs(a) % m` and it takes the sign of the dividend |
| Hashing.BucketIndex | Project1_Part2/Program.cs:185 | `Math.Abs(h % maxSize)` lies in `[0, m)` and equals `Abs(h) % m` |
| Hashing.RoundHalfEven | Project1_Part2/Program.cs:142 | `Convert.ToInt32(n / d)` is within one half of `n / d`, and an exact half rounds to the even neighbour |
| Hashing.RoundHalfEvenUnique | Project1_Part2/Program.cs:142 | any integer that close to `n / d` (with ties broken to even) is the rounding itself |
| Hashing.GrowthDue | Project1_Part2/Program.cs:139 | the integer test `counter * den >= maxSize * num` holds exactly when `counter >= maxSize * (num / den)` in rational arithmetic, the comparison the program makes with its threshold |
| Hashing.NextCapacity | Project1_Part2/Program.cs:142 | the capacity after growth never shrinks and differs from `maxSize * (1 + threshold)` by at most one half |
| Hashing.NextCapacityGrows | Project1_Part2/Program.cs:139-142 | the capacity strictly grows exactly when `maxSize * threshold > 1/2`; otherwise the rehash keeps the size |
| Hashing.DefaultGrowth | Project1_Part2/Program.cs:285-296 | with the defaults (100, 0.75) the first growth gives 175 buckets, not the 150 that the doc comment's "50% larger" says |
| Chains.Lookup | Project1_Part2/Program.cs:243-250 | the bucket scan: the value of the first pair whose key equals k, scanning from the front, or nothing; its properties are the lemmas below |
| Chains.LookupFound | Project1_Part2/Program.cs:218-225 | scanning a bucket finds a value exactly when some pair in it has the key |
| Chains.LookupFirst | Project1_Part2/Program.cs:243-250 | the scan returns the value of the first pair with the key |
| Chains.LookupAppend | Project1_Part2/Program.cs:218-225 | a lookup in the concatenation of two chains answers from the first chain when it has the key |
| Chains.Upsert | Project1_Part2/Program.cs:188-202 | Put's bucket step: the bucket grows by at most one pair, and afterwards a lookup of k finds v |
| Chains.UpsertReplaces | Project1_Part2/Program.cs:188-195 | storing an existing key overwrites the first pair with that key in place and changes nothing else in the bucket |
| Chains.UpsertAppends | Project1_Part2/Program.cs:198-202 | storing an absent key appends exactly one pair at the end of its bucket |
| Chains.LookupUpsert | Project1_Part2/Program.cs:177-205 | after a store, the key finds the new value and every other key finds what it found before |
| Chains.UpsertMembers | Project1_Part2/Program.cs:188-202 | a store adds no pair but the new one, and the bucket grows by one exactly when the key was absent |
| Chains.UpsertDistinct | Project1_Part2/Program.cs:188-202 | a store keeps the keys of a bucket distinct |
| Chains.Flatten | Project1_Part2/Program.cs:262-268 | the traversal order: bucket by bucket in index order, each bucket front to back; its properties are the lemmas below |
| Chains.FlattenMembers | Project1_Part2/Program.cs:262-268 | a pair is enumerated exactly when it is in some bucket |
| Chains.FlattenUpdate | Project1_Part2/Program.cs:192-200 | replacing one bucket replaces exactly its pairs in the table's multiset of pairs |
| Chains.FlattenLookup | Project1_Part2/Program.cs:212-253 | with every pair in its own bucket, a lookup over the whole table agrees with the lookup in the key's bucket |
| Chains.FlattenDistinct | Project1_Part2/Program.cs:177-205 | distinct keys per bucket plus correct placement give distinct keys over the whole table |
| Chains.KeysOf | Project1_Part2/Program.cs:266 | the keys of a sequence of pairs, in order: what the enumerator yields for them; its properties are KeysOfFacts and KeysOfSnoc |
| Chains.KeysOfFacts | Project1_Part2/Program.cs:259-269 | the enumerated keys are the keys of the pairs, without repetition when the keys are distinct |
| Chains.Chain | Project1_Part2/Program.cs:154-164 | the new bucket b after the copying loops: the moved pairs that hash to b, in traversal order, never more pairs than were moved |
| Chains.Redistribute | Project1_Part2/Program.cs:144-164 | the new buckets after the copying loops: exactly `m` of them, bucket b holding `Chain(es, m, hash, b)` |
| Chains.ChainMembers | Project1_Part2/Program.cs:156-162 | a rebuilt bucket holds only moved pairs whose keys hash to it under the new capacity |
| Chains.ChainDistinct | Project1_Part2/Program.cs:156-162 | rebuilding a bucket from pairs with distinct keys keeps them distinct |
| Chains.ChainLookup | Project1_Part2/Program.cs:154-166 | after the move, the key's new bucket answers for the key as the whole old table did |
| Chains.RedistributeSnoc | Project1_Part2/Program.cs:160-162 | moving one more pair appends it to the end of its new bucket only |
| Chains.RedistributePermutes | Project1_Part2/Program.cs:147-166 | rehashing neither loses nor duplicates a pair: the new buckets hold a permutation of the old ones |
| Chains.RedistributeStep | Project1_Part2/Program.cs:156-162 | one more moved pair adds exactly that pair to the new buckets' multiset |
| Chains.FlattenAppendTo | Project1_Part2/Program.cs:200-201 | appending a pair to one bucket adds that pair and nothing else to the table |
| Chains.FlattenEmpty | Project1_Part2/Program.cs:127-130 | a table of empty buckets holds nothing |
| Chains.RedistributeWellFormed | Project1_Part2/Program.cs:147-166 | the rebuilt buckets satisfy the storage invariant: right count, every pair in its bucket, distinct keys |
| Chains.RehashPreservesFind | Project1_Part2/Program.cs:137-168 | rehashing changes the answer of no lookup |
| Chains.Find | Project1_Part2/Program.cs:216-225 | what `Contains` and `Get` answer for a key: the lookup in the bucket the key hashes to; `Valid()` ties it to the table's map |
| Chains.Store | Project1_Part2/Program.cs:185-202 | the buckets after Put's store step, before growth: only the key's bucket changes, to `Upsert` of it; its properties are StoreFind, StoreWellFormed and StoreKeepsInvariant |
| Chains.StoreFind | Project1_Part2/Program.cs:177-205 | after Put's store step, k finds v and every other key is unaffected |
| Chains.StoreWellFormed | Project1_Part2/Program.cs:177-205 | the store step keeps the storage invariant, and the pair count grows by one exactly when the key was absent |
| Chains.FlattenUpdateLength | Project1_Part2/Program.cs:192-201 | replacing one bucket changes the pair count by the difference in that bucket's length |
| Chains.FlattenHasKey | Project1_Part2/Program.cs:212-229 | a key is among the table's pairs exactly when its bucket has it |
| Chains.KeysOfSnoc | Project1_Part2/Program.cs:264-267 | one more pair yields its key at the end of the enumeration |
| Chains.StoreKeepsInvariant | Project1_Part2/Program.cs:177-202 | Put's store step keeps the invariant, the buckets then stand for `c[k := v]`, and the count rises by one exactly for a new key |
| Chains.RehashKeepsInvariant | Project1_Part2/Program.cs:137-168 | rehashing keeps the invariant, the pair count and the abstract map |
| Chains.RehashReorders | Project1_Part2/Program.cs:154-162 | with the identity hash, putting 7, 0 and 1 into 4 buckets at threshold 3/4 triggers growth to 7 buckets, after which bucket 0 lists 0 before 7: a rehash does not keep insertion order |
| Chains.EnumerationKeys | Project1_Part2/Program.cs:259-269 | the enumeration yields each key of the table exactly once, and nothing else |
| HashTable.LinkedHashedTable.constructor | Project1_Part2/Program.cs:122-131 | a new table has `max` empty buckets, no pairs, and satisfies the invariant |
| HashTable.LinkedHashedTable.Rehashing | Project1_Part2/Program.cs:137-168 | grows only when `counter >= maxSize * threshold`, to `NextCapacity`, with the pairs redistributed in enumeration order; the map and the counter are unchanged |
| HashTable.LinkedHashedTable.Redistributed | Project1_Part2/Program.cs:144-163 | the copying loops of Rehashing: a fresh array whose buckets are `Redistribute` of the old pairs |
| HashTable.LinkedHashedTable.Put | Project1_Part2/Program.cs:177-205 | the map becomes `Contents[k := v]`; counter rises by one exactly for a new key; without growth, only k's bucket changes, in place |
| HashTable.LinkedHashedTable.Contains | Project1_Part2/Program.cs:212-229 | true exactly when the key is in the table; nothing changes |
| HashTable.LinkedHashedTable.Get | Project1_Part2/Program.cs:237-253 | the stored value for a present key, and `NonExistentKey(k)` for an absent one; nothing changes |
| HashTable.LinkedHashedTable.GetEnumerator | Project1_Part2/Program.cs:259-269 | the keys bucket by bucket, each bucket front to back (the `Put` order since the last rehash, the old table's traversal order before it): `counter` keys, each key of the table exactly once |
| HashTable.TableFactory.Make | Project1_Part2/Program.cs:292-296 | a fresh, empty, valid table of the given capacity and threshold (defaults 100 and 3/4) |
| Scenarios.PutThenLookup | Project1_Part2/Program.cs:60-83 | Put always succeeds; afterwards Contains reports the key and Get returns the value |
| Scenarios.Listing | Project1_Part2/Program.cs:309-312 | a listing of the demonstration: every key of the table once, and `Get` of each succeeds with its current value |
| Scenarios.NamesDemo | Project1_Part2/Program.cs:301-333 | the demonstration: the first listing shows Joe, Jane and Chris with Doe, Brain and Swiss; the second adds Wavy with Gravy and shows Chris with Bliss; Jane finds Brain, and John is reported missing |
| Scenarios.IdentityKeys | Project1_Part2/Program.cs:355-359 | after inserting 0 .. n-1 in order, the map holds exactly those keys, each mapped to itself |
| Scenarios.FillTable | Project1_Part2/Program.cs:351-359 | test case 1: 2000 puts into a table of capacity 5 and threshold 0.6 leave 2000 pairs |
| Scenarios.GetTests | Project1_Part2/Program.cs:366-399 | test cases 2 and 3: the 20 sampled keys find themselves, and 2010 raises NonExistentKey carrying 2010 |
| Scenarios.ContainsTests | Project1_Part2/Program.cs:401-423 | test cases 4 and 5: the keys 0 .. 49 are present and 2010 is not |
| Scenarios.EnumerationTest | Project1_Part2/Program.cs:425-439 | test case 6: the enumeration yields 2000 keys |

## Left out

- Integer width: `counter`, `maxSize` and hash codes are 32-bit `int`s in C#; the model
  uses unbounded integers. The growth arithmetic `maxSize * threshold` is done in
  `double`, so it does not overflow. Only a table of more than 2^31 - 1 pairs or buckets
  would differ.
- Floating point: the threshold is a `double`. The model uses the exact rational
  `num / den`. A threshold with no exact binary value, such as 0.6, can compare or round
  differently in IEEE arithmetic at exact boundaries. Negative thresholds are not
  modelled (`num` is a `nat`). The program never builds one.
- `GetHashCode` is abstract (`hash`), except in the integer test, where an `int` hashes
  to itself as in .NET. String hashing in the demonstration is left abstract, and the
  demonstration's five names are taken as five distinct keys.
- The exception's message text (`"Non existent key in HashTable: " + k`) is not
  modelled; the error carries only its key.
- `GetEnumerator` is a lazy `yield` iterator. The model returns the whole key sequence at
  once, so it does not capture a table that changes during enumeration. The non-generic
  `IEnumerable.GetEnumerator` shim and the `Table` interface are not modelled separately.
- The `throw new NotImplementedException()` after `return keyFound` in `Contains` is
  unreachable and has no counterpart.
- `KeyValuePair` is a class whose `V` is assigned in place by `Put`. These objects never
  leave the table, so the model treats a pair as a value (`Entry`). Replacing the value
  writes a new `Entry` at the same position of the same bucket.
- HashTable.LinkedHashedTable.Redistributed: the source runs the two copying loops inside
  `Rehashing`. The model puts them in this separate method of the class, which
  `Rehashing` calls. The loops, their order and their effect are the same.
- Printing and `Console.ReadLine` in `Main` and `Test_Table.test` are not modelled. The
  scenarios return the values the program prints or compares: each listing of the
  demonstration is its keys with the result of `Get` for each, not the formatted lines.
- Scenarios.NamesDemo: the demonstration's last names ("Doe", "Brain", "Swiss", "Gravy",
  "Bliss") are parameters of the value type rather than string literals, as its first names
  are parameters of the key type. The outcome is stated for any five values, so it holds of
  the literals too.
- HashTable.LinkedHashedTable.constructor: requires a capacity of at least 1, and so does
  HashTable.TableFactory.Make. The program does not check it: with capacity 0 the first
  `Put` (and `Contains` or `Get`) throws `DivideByZeroException` at `% maxSize`
  (Project1_Part2/Program.cs:185), and a negative capacity makes the array allocation
  throw (Project1_Part2/Program.cs:126). Every caller in the program passes 4 or 5
  (Project1_Part2/Program.cs:303, 352).
- Null keys: with a reference key type such as `String`, a `null` key makes
  `k.GetHashCode()` throw `NullReferenceException` in `Put`, `Contains` and `Get`
  (Project1_Part2/Program.cs:185, 216, 241), so "Put always succeeds" does not hold for
  it. The model's key type has no null value; the program never passes one.
- Key types: the model's key type is declared `K(==, !new)`, which admits no class-typed
  keys, while C# allows any `Key`. The program's own keys are `String` and `int`, both value
  types in the model, so nothing the program does is excluded.
- Enumeration order: the table is described as keeping each bucket in insertion order, but
  a rehash re-adds the pairs in the old table's traversal order (Project1_Part2/Program.cs:154-162),
  so after growth a bucket can list a later key first. The model follows the code, and
  `Chains.RehashReorders` gives an instance.
- The doc comment of `TableFactory.Make` promises a rebuild "to a 50% larger size"; the
  code grows by the threshold fraction instead, 75% with the defaults. The model follows
  the code, and `Hashing.DefaultGrowth` records the difference.

/**
 * Two clients of the table: the demonstration of the program's entry point (string keys
 * and values, three inserts, two more of which one replaces) and its unit test (2000
 * integer keys). What they print becomes what these methods return; each contract is
 * the outcome the program reports as correct.
 */
module Scenarios {
  import opened HashTable

  /**
   * The promise of the table interface: Put always succeeds, and afterwards Contains
   * reports the key and Get returns the value just stored.
   */
  method PutThenLookup<K(==, !new), V>(t: LinkedHashedTable<K, V>, k: K, v: V)
    returns (present: bool, r: Result<V, NonExistentKey<K>>)
    requires t.Valid()
    modifies t, t.list
    ensures t.Valid()
    ensures present && r == Ok(v)
  {
    t.Put(k, v);
    present := t.Contains(k);
    r := t.Get(k);
  }

  /**
   * One listing of the demonstration: the keys in enumeration order, each with what Get
   * returns for it. Every Get of a listing succeeds with the key's current value.
   */
  method Listing<K(==, !new), V>(t: LinkedHashedTable<K, V>)
    returns (keys: seq<K>, values: seq<Result<V, NonExistentKey<K>>>)
    requires t.Valid()
    ensures |keys| == |values| == |t.Contents|
    ensures forall k :: k in keys <==> k in t.Contents
    ensures forall i :: 0 <= i < |keys| ==> keys[i] in t.Contents && values[i] == Ok(t.Contents[keys[i]])
  {
    keys := t.GetEnumerator();
    values := [];
    var i := 0;
    while i < |keys|
      invariant 0 <= i <= |keys| && |values| == i
      invariant forall j :: 0 <= j < i ==> values[j] == Ok(t.Contents[keys[j]])
    {
      var r := t.Get(keys[i]);
      values := values + [r];
      i := i + 1;
    }
  }

  /**
   * The demonstration: a table of capacity 4 and threshold 0.5 from first names to last
   * names, listed after three inserts and again after two more, of which one replaces
   * Chris's value. The first names "Joe", "Jane", "Chris", "Wavy" and "John" are five
   * distinct keys of a key type whose hash code is left abstract; the last names "Doe",
   * "Brain", "Swiss", "Gravy" and "Bliss" are the values doe, brain, swiss, gravy, bliss.
   */
  method NamesDemo<K(==, !new), V>(hash: K -> int, joe: K, jane: K, chris: K, wavy: K, john: K,
                                   doe: V, brain: V, swiss: V, gravy: V, bliss: V)
    returns (first: seq<K>, firstValues: seq<Result<V, NonExistentKey<K>>>,
             second: seq<K>, secondValues: seq<Result<V, NonExistentKey<K>>>,
             janeValue: Result<V, NonExistentKey<K>>, johnValue: Result<V, NonExistentKey<K>>)
    requires joe != jane && joe != chris && joe != wavy && joe != john
    requires jane != chris && jane != wavy && jane != john
    requires chris != wavy && chris != john && wavy != john
    ensures |first| == |firstValues| == 3
    ensures forall n :: n in first <==> n == joe || n == jane || n == chris
    ensures forall i :: 0 <= i < 3 ==>
      firstValues[i] == Ok(if first[i] == joe then doe else if first[i] == jane then brain else swiss)
    ensures |second| == |secondValues| == 4
    ensures forall n :: n in second <==> n == joe || n == jane || n == chris || n == wavy
    ensures forall i :: 0 <= i < 4 ==>
      secondValues[i] == Ok(if second[i] == joe then doe else if second[i] == jane then brain
                            else if second[i] == chris then bliss else gravy)
    ensures janeValue == Ok(brain)
    ensures johnValue == Err(NonExistentKey(john))
  {
    var ht := TableFactory.Make<K, V>(hash, 4, 1, 2);
    ht.Put(joe, doe);
    ht.Put(jane, brain);
    ht.Put(chris, swiss);
    first, firstValues := Listing(ht);
    ht.Put(wavy, gravy);
    ht.Put(chris, bliss);
    second, secondValues := Listing(ht);
    janeValue := ht.Get(jane);
    johnValue := ht.Get(john);
  }

  /** The map j -> j on the keys 0 .. n-1, built by inserting them in increasing order. */
  ghost function Identity(n: nat): map<int, int> {
    if n == 0 then map[] else Identity(n - 1)[n - 1 := n - 1]
  }

  /** Identity(n) holds exactly the keys 0 .. n-1, each mapped to itself. */
  lemma {:induction false} IdentityKeys(n: nat)
    ensures forall j :: j in Identity(n) <==> 0 <= j < n
    ensures forall j :: j in Identity(n) ==> Identity(n)[j] == j
  {
    if n > 0 {
      IdentityKeys(n - 1);
    }
  }

  /**
   * The unit test's table: capacity 5, threshold 0.6, an int's hash code being the int
   * itself, filled with the 2000 entries j -> j for j in 0 .. 1999.
   */
  method FillTable() returns (ht: LinkedHashedTable<int, int>, putCount: nat)
    ensures fresh(ht) && ht.Valid()
    ensures ht.Contents == Identity(2000)
    ensures putCount == ht.counter == 2000
  {
    ht := TableFactory.Make<int, int>(x => x, 5, 3, 5);
    putCount := 0;
    var i := 0;
    while i < 2000
      invariant 0 <= i <= 2000 && putCount == i == ht.counter
      invariant fresh(ht) && fresh(ht.list) && ht.Valid()
      invariant ht.Contents == Identity(i)
    {
      IdentityKeys(i);
      ht.Put(i, i);
      putCount := putCount + 1;
      i := i + 1;
    }
  }

  /** Test cases 2 and 3: every hundredth key finds itself, and 2010 is reported missing. */
  method GetTests(ht: LinkedHashedTable<int, int>)
    returns (getCount: nat, missing: Result<int, NonExistentKey<int>>)
    requires ht.Valid() && ht.Contents == Identity(2000)
    ensures getCount == 20
    ensures missing == Err(NonExistentKey(2010))
  {
    IdentityKeys(2000);
    getCount := 0;
    var i := 0;
    while i < 2000
      invariant i == 100 * getCount && getCount <= 20
    {
      var r := ht.Get(i);
      if r == Ok(i) {
        getCount := getCount + 1;
      }
      i := i + 100;
    }
    missing := ht.Get(2010);
  }

  /** Test cases 4 and 5: the keys 0 .. 49 are present and 2010 is not. */
  method ContainsTests(ht: LinkedHashedTable<int, int>)
    returns (containsCount: nat, containsMissing: bool)
    requires ht.Valid() && ht.Contents == Identity(2000)
    ensures containsCount == 50
    ensures !containsMissing
  {
    IdentityKeys(2000);
    containsCount := 0;
    var i := 0;
    while i < 50
      invariant 0 <= i <= 50 && containsCount == i
    {
      var found := ht.Contains(i);
      if found {
        containsCount := containsCount + 1;
      }
      i := i + 1;
    }
    containsMissing := ht.Contains(2010);
  }

  /** Test case 6: the enumeration visits 2000 keys. */
  method EnumerationTest(ht: LinkedHashedTable<int, int>) returns (enumCount: nat)
    requires ht.Valid() && ht.counter == 2000
    ensures enumCount == 2000
  {
    var keys := ht.GetEnumerator();
    enumCount := |keys|;
  }
}

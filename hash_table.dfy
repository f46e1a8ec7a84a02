/**
 * The separate-chaining hash table of hash_table.c: an array of `size`
 * bucket chains of (key, value) nodes, head first, and a `count` of stored
 * nodes. Keys are C strings; each character of the model stands for one
 * byte, read as a signed `char` when it is hashed.
 */
module ChainedHashTable {
  import opened Common

  /** size_t is 64 bits wide. */
  const SIZE_LIMIT: int := 0x1_0000_0000_0000_0000

  datatype ErrorCode = Success | KeyNotFound | AllocationError | AlreadyExists | TableFull

  datatype Entry = Entry(key: string, value: int)

  /** DJB2 over the whole key: h = 5381, then h = h * 33 + c for each character, modulo 2^64. */
  function Djb2(key: string): (h: int)
    ensures 0 <= h < SIZE_LIMIT
  {
    if key == [] then 5381
    else (Djb2(key[..|key| - 1]) * 33 + SignedChar(key[|key| - 1])) % SIZE_LIMIT
  }

  /** The bucket of a key in a table of `size` buckets. */
  function Bucket(key: string, size: nat): (i: nat)
    requires size > 0
    ensures i < size
  {
    Djb2(key) % size
  }

  /**
   * hashFunction: the DJB2 loop, `hash = (hash << 5) + hash + c` with
   * size_t wrap-around, then `hash % size`.
   */
  method HashFunction(key: string, size: nat) returns (index: nat)
    requires size > 0
    ensures index == Bucket(key, size) && index < size
  {
    var hash := 5381;
    var i := 0;
    while i < |key|
      invariant 0 <= i <= |key|
      invariant hash == Djb2(key[..i])
    {
      assert key[..i + 1][..i] == key[..i];
      hash := (hash * 32 + hash + SignedChar(key[i])) % SIZE_LIMIT;
      i := i + 1;
    }
    assert key[..i] == key;
    index := hash % size;
  }

  /** The first value stored under `key` in a chain, walking from the head. */
  function Find(chain: seq<Entry>, key: string): (r: Option<int>)
    ensures r.Some? <==> exists j :: 0 <= j < |chain| && chain[j].key == key
  {
    if chain == [] then None
    else if chain[0].key == key then Some(chain[0].value)
    else Find(chain[1..], key)
  }

  /** The keys of a chain, head first. */
  function ChainKeys(chain: seq<Entry>): (ks: seq<string>)
    ensures |ks| == |chain|
    ensures forall j :: 0 <= j < |chain| ==> ks[j] == chain[j].key
  {
    if chain == [] then [] else [chain[0].key] + ChainKeys(chain[1..])
  }

  /** All keys of the buckets in `hashTableKeys` order: bucket by bucket, each chain head first. */
  function AllKeys(buckets: seq<seq<Entry>>): seq<string>
  {
    if buckets == [] then []
    else AllKeys(buckets[..|buckets| - 1]) + ChainKeys(buckets[|buckets| - 1])
  }

  /** No key appears twice. */
  ghost predicate Distinct(ks: seq<string>)
  {
    forall i, j :: 0 <= i < j < |ks| ==> ks[i] != ks[j]
  }

  /** Every key of chain `i` hashes to `i`, and no key repeats within it. */
  ghost predicate ChainOk(chain: seq<Entry>, i: nat, size: nat)
    requires size > 0
  {
    && (forall j :: 0 <= j < |chain| ==> Bucket(chain[j].key, size) == i)
    && (forall j, k :: 0 <= j < k < |chain| ==> chain[j].key != chain[k].key)
  }

  ghost predicate BucketsOk(buckets: seq<seq<Entry>>, size: nat)
  {
    size > 0 && |buckets| == size && forall i :: 0 <= i < size ==> ChainOk(buckets[i], i, size)
  }

  /** Replacing one chain changes the key count by the difference in chain lengths. */
  lemma {:induction false} AllKeysUpdate(buckets: seq<seq<Entry>>, i: nat, chain: seq<Entry>)
    requires i < |buckets|
    ensures |AllKeys(buckets[i := chain])| == |AllKeys(buckets)| - |buckets[i]| + |chain|
  {
    var n := |buckets| - 1;
    if i < n {
      AllKeysUpdate(buckets[..n], i, chain);
      assert buckets[i := chain][..n] == buckets[..n][i := chain];
    } else {
      assert buckets[i := chain][..n] == buckets[..n];
    }
  }

  /** A key is among the first `n` buckets' keys exactly when some chain there holds it. */
  lemma {:induction false} AllKeysMember(buckets: seq<seq<Entry>>, key: string)
    ensures key in AllKeys(buckets) <==>
      exists i, j :: 0 <= i < |buckets| && 0 <= j < |buckets[i]| && buckets[i][j].key == key
  {
    if buckets != [] {
      var n := |buckets| - 1;
      AllKeysMember(buckets[..n], key);
      if key in ChainKeys(buckets[n]) {
        var j :| 0 <= j < |buckets[n]| && ChainKeys(buckets[n])[j] == key;
        assert buckets[n][j].key == key;
      }
      if exists i, j :: 0 <= i < |buckets| && 0 <= j < |buckets[i]| && buckets[i][j].key == key {
        var i, j :| 0 <= i < |buckets| && 0 <= j < |buckets[i]| && buckets[i][j].key == key;
        if i < n {
          assert buckets[..n][i][j].key == key;
        } else {
          assert ChainKeys(buckets[n])[j] == key;
        }
      }
    }
  }

  /** The keys of the first i + 1 buckets extend those of the first i by chain i. */
  lemma KeysStep(buckets: seq<seq<Entry>>, i: nat)
    requires i < |buckets|
    ensures AllKeys(buckets[..i + 1]) == AllKeys(buckets[..i]) + ChainKeys(buckets[i])
  {
    assert buckets[..i + 1][..i] == buckets[..i];
  }

  /** A key is listed exactly when the chain of its own bucket holds it. */
  lemma AllKeysLookup(buckets: seq<seq<Entry>>, size: nat, key: string)
    requires BucketsOk(buckets, size)
    ensures key in AllKeys(buckets) <==> Find(buckets[Bucket(key, size)], key).Some?
  {
    AllKeysMember(buckets, key);
    if key in AllKeys(buckets) {
      var a, b :| 0 <= a < size && 0 <= b < |buckets[a]| && buckets[a][b].key == key;
      assert Bucket(key, size) == a;
    }
  }

  /** With every key in its own bucket and no repeats within a chain, no key repeats at all. */
  lemma {:induction false} AllKeysDistinct(buckets: seq<seq<Entry>>, size: nat, n: nat)
    requires BucketsOk(buckets, size) && n <= size
    ensures Distinct(AllKeys(buckets[..n]))
    ensures forall k :: k in AllKeys(buckets[..n]) ==> Bucket(k, size) < n
  {
    if n > 0 {
      AllKeysDistinct(buckets, size, n - 1);
      assert buckets[..n][..n - 1] == buckets[..n - 1];
      var prefix := AllKeys(buckets[..n - 1]);
      var last := ChainKeys(buckets[n - 1]);
      assert AllKeys(buckets[..n]) == prefix + last;
      forall k | k in prefix + last ensures Bucket(k, size) < n {
        if k in last {
          var j :| 0 <= j < |last| && last[j] == k;
        }
      }
      forall i, j | 0 <= i < j < |prefix + last| ensures (prefix + last)[i] != (prefix + last)[j] {
        if j >= |prefix| && i < |prefix| {
          assert (prefix + last)[j] == buckets[n - 1][j - |prefix|].key;
          assert (prefix + last)[i] in prefix;
        } else if i >= |prefix| {
          assert (prefix + last)[i] == buckets[n - 1][i - |prefix|].key;
          assert (prefix + last)[j] == buckets[n - 1][j - |prefix|].key;
        }
      }
    }
  }

  /** Prepending a new key to a chain: the lookup finds it first, other keys as before. */
  lemma FindPrepend(chain: seq<Entry>, e: Entry, key: string)
    ensures Find([e] + chain, key) == if key == e.key then Some(e.value) else Find(chain, key)
  {
    assert ([e] + chain)[1..] == chain;
  }

  /** A key none of whose entries is in the chain is not found. */
  lemma FindMissing(chain: seq<Entry>, key: string)
    requires forall b :: 0 <= b < |chain| ==> chain[b].key != key
    ensures Find(chain, key) == None
  {
  }

  /** Unlinking position `j` of a chain without repeated keys removes exactly that key. */
  lemma {:induction false} FindRemove(chain: seq<Entry>, j: nat, key: string)
    requires j < |chain|
    requires forall a, b :: 0 <= a < b < |chain| ==> chain[a].key != chain[b].key
    ensures Find(chain[..j] + chain[j + 1..], key) == if key == chain[j].key then None else Find(chain, key)
  {
    if j == 0 {
      assert chain[..0] + chain[1..] == chain[1..];
      if key == chain[0].key {
        FindMissing(chain[1..], key);
      }
    } else {
      var rest := chain[1..];
      FindRemove(rest, j - 1, key);
      assert chain[..j] + chain[j + 1..] == [chain[0]] + (rest[..j - 1] + rest[j..]);
      assert ([chain[0]] + (rest[..j - 1] + rest[j..]))[1..] == rest[..j - 1] + rest[j..];
    }
  }

  /** Replacing one chain by a well-placed chain keeps every bucket well placed. */
  lemma BucketsUpdate(buckets: seq<seq<Entry>>, size: nat, i: nat, chain: seq<Entry>)
    requires BucketsOk(buckets, size) && i < size && ChainOk(chain, i, size)
    ensures BucketsOk(buckets[i := chain], size)
  {
  }

  /** Prepending a node whose key hashes to chain `i` and is not in it keeps the chain well placed. */
  lemma PrependOk(chain: seq<Entry>, i: nat, size: nat, e: Entry)
    requires size > 0 && ChainOk(chain, i, size) && Bucket(e.key, size) == i
    requires forall a :: 0 <= a < |chain| ==> chain[a].key != e.key
    ensures ChainOk([e] + chain, i, size)
  {
    var longer := [e] + chain;
    assert forall a :: 0 < a < |longer| ==> longer[a] == chain[a - 1];
  }

  /** Unlinking one node keeps a chain's keys in their bucket and distinct. */
  lemma UnlinkOk(chain: seq<Entry>, i: nat, size: nat, j: nat)
    requires size > 0 && ChainOk(chain, i, size) && j < |chain|
    ensures ChainOk(chain[..j] + chain[j + 1..], i, size)
  {
    var shorter := chain[..j] + chain[j + 1..];
    assert forall a :: 0 <= a < |shorter| ==> shorter[a] == chain[if a < j then a else a + 1];
  }

  class HashTable {
    var buckets: array?<seq<Entry>>
    var size: nat
    var count: nat

    ghost predicate Valid()
      reads this, buckets
    {
      && (buckets != null ==> buckets.Length == size && BucketsOk(buckets[..], size) && count == |AllKeys(buckets[..])|)
      && (buckets == null ==> count == 0)
    }

    /** The value stored for `key`, if any. */
    ghost function Lookup(key: string): Option<int>
      reads this, buckets
      requires Valid()
    {
      if buckets == null then None else Find(buckets[Bucket(key, size)], key)
    }

    /** hashTableInit: `size` empty buckets and count 0. */
    constructor (size: nat)
      requires size > 0
      ensures Valid() && buckets != null && fresh(buckets) && this.size == size && count == 0
      ensures forall k :: Lookup(k) == None
    {
      this.size := size;
      count := 0;
      var empty := new seq<Entry>[size](_ => []);
      buckets := empty;
      new;
      assert forall i :: 0 <= i <= size ==> AllKeys(empty[..][..i]) == [] by {
        forall i | 0 <= i <= size ensures AllKeys(empty[..][..i]) == [] {
          EmptyPrefix(empty[..], i);
        }
      }
      assert empty[..][..size] == empty[..];
    }

    /**
     * hashTableInsertUnique: walk the key's chain; ALREADY_EXISTS if the key
     * is there, otherwise prepend a node and count it.
     */
    method InsertUnique(key: string, value: int) returns (err: ErrorCode)
      requires Valid() && buckets != null
      modifies buckets, this
      ensures Valid() && buckets == old(buckets) && size == old(size)
      ensures err == (if old(Lookup(key)).Some? then AlreadyExists else Success)
      ensures err == AlreadyExists ==> buckets[..] == old(buckets[..]) && count == old(count)
      ensures err == Success ==> count == old(count) + 1
      ensures forall k :: Lookup(k) == (if err == Success && k == key then Some(value) else old(Lookup(k)))
    {
      var index := HashFunction(key, size);
      var chain := buckets[index];
      var j := 0;
      while j < |chain|
        invariant 0 <= j <= |chain|
        invariant forall a :: 0 <= a < j ==> chain[a].key != key
      {
        if chain[j].key == key {
          return AlreadyExists;
        }
        j := j + 1;
      }
      ghost var before := buckets[..];
      PrependOk(chain, index, size, Entry(key, value));
      BucketsUpdate(before, size, index, [Entry(key, value)] + chain);
      AllKeysUpdate(before, index, [Entry(key, value)] + chain);
      buckets[index] := [Entry(key, value)] + chain;
      assert buckets[..] == before[index := [Entry(key, value)] + chain];
      count := count + 1;
      assert Valid();
      forall k ensures Lookup(k) == (if k == key then Some(value) else old(Lookup(k))) {
        FindPrepend(chain, Entry(key, value), k);
      }
      err := Success;
    }

    /** hashTableContains: SUCCESS exactly when the key is stored. */
    method Contains(key: string) returns (err: ErrorCode)
      requires Valid() && buckets != null
      ensures err == (if Lookup(key).Some? then Success else KeyNotFound)
    {
      var index := HashFunction(key, size);
      var chain := buckets[index];
      var j := 0;
      while j < |chain|
        invariant 0 <= j <= |chain|
        invariant Find(chain[j..], key) == Find(chain, key)
      {
        if chain[j].key == key {
          return Success;
        }
        assert chain[j..][1..] == chain[j + 1..];
        j := j + 1;
      }
      return KeyNotFound;
    }

    /** hashTableGet: the stored value, or KEY_NOT_FOUND with the caller's `prev` untouched. */
    method Get(key: string, prev: int) returns (err: ErrorCode, value: int)
      requires Valid() && buckets != null
      ensures err == (if Lookup(key).Some? then Success else KeyNotFound)
      ensures value == (if Lookup(key).Some? then Lookup(key).value else prev)
    {
      var index := HashFunction(key, size);
      var chain := buckets[index];
      var j := 0;
      while j < |chain|
        invariant 0 <= j <= |chain|
        invariant Find(chain[j..], key) == Find(chain, key)
      {
        if chain[j].key == key {
          return Success, chain[j].value;
        }
        assert chain[j..][1..] == chain[j + 1..];
        j := j + 1;
      }
      return KeyNotFound, prev;
    }

    /** hashTableCount: the count field, the number of stored keys. */
    function Count(): (n: nat)
      reads this, buckets
      requires Valid()
      ensures buckets != null ==> n == |AllKeys(buckets[..])|
    {
      count
    }

    /**
     * hashTableRemove: walk the key's chain keeping the previous node;
     * unlink the matching node and uncount it, or KEY_NOT_FOUND.
     */
    method Remove(key: string) returns (err: ErrorCode)
      requires Valid() && buckets != null
      modifies buckets, this
      ensures Valid() && buckets == old(buckets) && size == old(size)
      ensures err == (if old(Lookup(key)).Some? then Success else KeyNotFound)
      ensures err == KeyNotFound ==> buckets[..] == old(buckets[..]) && count == old(count)
      ensures err == Success ==> count == old(count) - 1
      ensures forall k :: Lookup(k) == (if err == Success && k == key then None else old(Lookup(k)))
    {
      var index := HashFunction(key, size);
      var chain := buckets[index];
      var j := 0;
      while j < |chain|
        invariant 0 <= j <= |chain|
        invariant forall a :: 0 <= a < j ==> chain[a].key != key
      {
        if chain[j].key == key {
          ghost var before := buckets[..];
          var shorter := chain[..j] + chain[j + 1..];
          UnlinkOk(chain, index, size, j);
          BucketsUpdate(before, size, index, shorter);
          AllKeysUpdate(before, index, shorter);
          buckets[index] := shorter;
          assert buckets[..] == before[index := shorter];
          count := count - 1;
          assert Valid();
          forall k ensures Lookup(k) == (if k == key then None else old(Lookup(k))) {
            if Bucket(k, size) == index {
              FindRemove(chain, j, k);
            }
          }
          return Success;
        }
        j := j + 1;
      }
      return KeyNotFound;
    }

    /**
     * hashTableKeys: the keys bucket by bucket, each chain from its head;
     * every stored key exactly once, `count` of them.
     */
    method Keys() returns (keys: seq<string>)
      requires Valid() && buckets != null
      ensures keys == AllKeys(buckets[..])
      ensures |keys| == count && Distinct(keys)
      ensures forall k :: k in keys <==> Lookup(k).Some?
    {
      keys := [];
      ghost var all := buckets[..];
      var i := 0;
      while i < size
        invariant 0 <= i <= size
        invariant keys == AllKeys(all[..i])
      {
        var chain := buckets[i];
        ghost var prefix, chainKeys := keys, ChainKeys(chain);
        var j := 0;
        while j < |chain|
          invariant 0 <= j <= |chain|
          invariant keys == prefix + chainKeys[..j]
        {
          assert chainKeys[..j + 1] == chainKeys[..j] + [chain[j].key];
          keys := keys + [chain[j].key];
          j := j + 1;
        }
        assert chainKeys[..j] == chainKeys;
        KeysStep(all, i);
        i := i + 1;
      }
      assert all[..size] == all;
      AllKeysDistinct(all, size, size);
      forall k ensures k in keys <==> Lookup(k).Some? {
        AllKeysLookup(buckets[..], size, k);
      }
    }

    /** hashTableClear: every node released, buckets = NULL, count 0. */
    method Clear()
      requires Valid()
      modifies this
      ensures Valid() && buckets == null && count == 0
      ensures forall k :: Lookup(k) == None
    {
      buckets := null;
      count := 0;
    }
  }

  /** An array of empty chains has no keys. */
  lemma {:induction false} EmptyPrefix(buckets: seq<seq<Entry>>, n: nat)
    requires n <= |buckets|
    requires forall i :: 0 <= i < |buckets| ==> buckets[i] == []
    ensures AllKeys(buckets[..n]) == []
  {
    if n > 0 {
      EmptyPrefix(buckets, n - 1);
      assert buckets[..n][..n - 1] == buckets[..n - 1];
    }
  }

  /** The stored keys are exactly "apple" and "banana", with these values. */
  ghost predicate HoldsFruit(table: HashTable, apple: int, banana: int)
    reads table, table.buckets
    requires table.Valid()
  {
    forall k :: table.Lookup(k) == (if k == "apple" then Some(apple) else if k == "banana" then Some(banana) else None)
  }

  /**
   * The first half of hashTableTests: insert apple and banana, see a
   * duplicate apple refused, read both values, miss cherry.
   */
  method HashTableFillTest() returns (table: HashTable, apple: int, banana: int)
    ensures fresh(table) && fresh(table.buckets)
    ensures table.Valid() && table.buckets != null && table.count == 2
    ensures apple == 100 && banana == 200 && HoldsFruit(table, 100, 200)
  {
    table := InsertFruitTest();
    var err := DuplicateAppleTest(table);
    apple, banana := HashTableLookupTest(table);
  }

  /** A table of ten buckets into which apple and banana both go in. */
  method InsertFruitTest() returns (table: HashTable)
    ensures fresh(table) && fresh(table.buckets)
    ensures table.Valid() && table.buckets != null && table.count == 2
    ensures HoldsFruit(table, 100, 200)
  {
    table := new HashTable(10);
    var err := table.InsertUnique("apple", 100);
    assert err == Success;
    err := table.InsertUnique("banana", 200);
    assert err == Success;
  }

  /** A second apple is refused and the table stays as it was. */
  method DuplicateAppleTest(table: HashTable) returns (err: ErrorCode)
    requires table.Valid() && table.buckets != null && HoldsFruit(table, 100, 200)
    modifies table, table.buckets
    ensures err == AlreadyExists
    ensures table.Valid() && table.buckets == old(table.buckets) && table.count == old(table.count)
    ensures HoldsFruit(table, 100, 200)
  {
    assert table.Lookup("apple") == Some(100);
    err := table.InsertUnique("apple", 300);
  }

  /** Reading apple and banana back, and missing cherry, on the filled table. */
  method HashTableLookupTest(table: HashTable) returns (apple: int, banana: int)
    requires table.Valid() && table.buckets != null && HoldsFruit(table, 100, 200)
    ensures apple == 100 && banana == 200
  {
    assert table.Lookup("apple") == Some(100) && table.Lookup("banana") == Some(200);
    assert table.Lookup("cherry") == None;
    var err;
    err, apple := table.Get("apple", 0);
    err, banana := table.Get("banana", apple);
    var missing;
    err, missing := table.Get("cherry", banana);
    assert err == KeyNotFound;
    err := table.Contains("apple");
    assert err == Success;
    err := table.Contains("cherry");
    assert err == KeyNotFound;
  }

  /** The second half: remove apple twice, then insert it again with 300. */
  method HashTableReinsertTest(table: HashTable) returns (reinserted: int)
    requires table.Valid() && table.buckets != null && table.count == 2 && HoldsFruit(table, 100, 200)
    modifies table, table.buckets
    ensures table.Valid() && table.buckets != null && table.count == 2 && HoldsFruit(table, 300, 200)
    ensures reinserted == 300
  {
    var err := table.Remove("apple");
    assert err == Success;
    err := table.Remove("apple");
    assert err == KeyNotFound;
    err := table.InsertUnique("apple", 300);
    assert err == Success;
    err, reinserted := table.Get("apple", 0);
  }

  /**
   * hashTableTests: the two halves above, then count 2, both keys listed,
   * and count 0 after clear.
   */
  method HashTableTest() returns (apple: int, banana: int, reinserted: int, countBeforeClear: nat, keys: seq<string>, countAfterClear: nat)
    ensures apple == 100 && banana == 200 && reinserted == 300
    ensures countBeforeClear == 2 && |keys| == 2
    ensures forall k :: k in keys <==> k == "apple" || k == "banana"
    ensures countAfterClear == 0
  {
    var table;
    table, apple, banana := HashTableFillTest();
    reinserted := HashTableReinsertTest(table);
    countBeforeClear := table.Count();
    keys := table.Keys();
    table.Clear();
    countAfterClear := table.Count();
  }
}

/** A capacity-bounded dictionary that evicts its oldest insertion. `LifoCache<Key,
    Value>` keeps a linked list of key/value pairs (head = newest insertion) and a
    dictionary from key to list node; here the list is a sequence whose index 0
    is the head and the dictionary maps each key to the value its node holds. */
module LifoCaches {
  import opened Results
  import opened Sequences

  /** The exceptions the C# class throws: `ArgumentOutOfRangeException` (capacity
      below one), `ArgumentException` (strict add of a present key) and
      `KeyNotFoundException` (indexer read of an absent key). */
  datatype CacheError = ArgumentOutOfRange | DuplicateKey | KeyNotFound

  /** The keys of a list of entries, in list order. */
  function KeysOf<K, V>(q: seq<(K, V)>): (ks: seq<K>)
    ensures |ks| == |q|
  {
    seq(|q|, i requires 0 <= i < |q| => q[i].0)
  }

  /** The values of a list of entries, in list order. */
  function ValuesOf<K, V>(q: seq<(K, V)>): (vs: seq<V>)
    ensures |vs| == |q|
  {
    seq(|q|, i requires 0 <= i < |q| => q[i].1)
  }

  ghost predicate DistinctKeys<K, V>(q: seq<(K, V)>) {
    forall i, j :: 0 <= i < j < |q| ==> q[i].0 != q[j].0
  }

  /** The dictionary a list of entries describes. */
  function MapOf<K, V>(q: seq<(K, V)>): map<K, V> {
    if q == [] then map[] else MapOf(q[1..])[q[0].0 := q[0].1]
  }

  /** Position of `key` in the list: the node the C# dictionary points to. */
  function KeyIndex<K(==), V>(q: seq<(K, V)>, key: K): (i: nat)
    requires key in KeysOf(q)
    ensures i < |q| && q[i].0 == key
  {
    if q[0].0 == key then 0
    else
      assert KeysOf(q) == [q[0].0] + KeysOf(q[1..]);
      1 + KeyIndex(q[1..], key)
  }

  /** `InsertOrUpdateInternal` on the list: a present key has its value replaced
      in place; a new key is pushed at the head, after dropping the tail when the
      list is full. */
  function Upsert<K(==), V>(q: seq<(K, V)>, capacity: int, key: K, value: V): (r: seq<(K, V)>)
    requires 1 <= capacity
    ensures (key, value) in r
    ensures key in KeysOf(q) ==> |r| == |q|
    ensures key !in KeysOf(q) ==> |r| == (if |q| >= capacity then |q| else |q| + 1)
  {
    if key in KeysOf(q) then
      var i := KeyIndex(q, key);
      assert q[i := (key, value)][i] == (key, value);
      q[i := (key, value)]
    else if |q| >= capacity then [(key, value)] + q[..|q| - 1]
    else [(key, value)] + q
  }

  /** Upserts of `kvs` in order, from the list `q`. */
  function InsertAll<K(==), V>(q: seq<(K, V)>, capacity: int, kvs: seq<(K, V)>): seq<(K, V)>
    requires 1 <= capacity
  {
    if kvs == [] then q
    else
      var last := kvs[|kvs| - 1];
      Upsert(InsertAll(q, capacity, kvs[..|kvs| - 1]), capacity, last.0, last.1)
  }

  lemma {:induction false} MapOfDomain<K, V>(q: seq<(K, V)>)
    ensures forall k :: k in MapOf(q) <==> k in KeysOf(q)
  {
    if q != [] {
      MapOfDomain(q[1..]);
      assert KeysOf(q) == [q[0].0] + KeysOf(q[1..]);
    }
  }

  /** With distinct keys, every entry of the list is what the dictionary holds. */
  lemma {:induction false} MapOfLookup<K, V>(q: seq<(K, V)>, i: nat)
    requires DistinctKeys(q)
    requires i < |q|
    ensures q[i].0 in MapOf(q) && MapOf(q)[q[i].0] == q[i].1
  {
    if i > 0 {
      MapOfLookup(q[1..], i - 1);
    }
  }

  /** With distinct keys, the dictionary has exactly one entry per list node. */
  lemma {:induction false} MapOfSize<K, V>(q: seq<(K, V)>)
    requires DistinctKeys(q)
    ensures |MapOf(q)| == |q|
  {
    if q != [] {
      MapOfSize(q[1..]);
      MapOfDomain(q[1..]);
      assert q[0].0 !in KeysOf(q[1..]);
    }
  }

  /** Removing the node at `i` removes its key from the dictionary and nothing else. */
  lemma {:induction false} MapOfRemoveAt<K, V>(q: seq<(K, V)>, i: nat)
    requires DistinctKeys(q)
    requires i < |q|
    ensures MapOf(q[..i] + q[i + 1..]) == MapOf(q) - {q[i].0}
  {
    MapOfDomain(q[1..]);
    assert q[0].0 !in KeysOf(q[1..]);
    if i == 0 {
      assert q[..i] + q[i + 1..] == q[1..];
    } else {
      MapOfRemoveAt(q[1..], i - 1);
      assert q[..i] + q[i + 1..] == [q[0]] + (q[1..][..i - 1] + q[1..][i..]);
    }
  }

  /** Replacing the value in the node at `i` replaces that key's value in the dictionary. */
  lemma {:induction false} MapOfUpdate<K, V>(q: seq<(K, V)>, i: nat, value: V)
    requires DistinctKeys(q)
    requires i < |q|
    ensures MapOf(q[i := (q[i].0, value)]) == MapOf(q)[q[i].0 := value]
  {
    if i == 0 {
      assert q[i := (q[i].0, value)][1..] == q[1..];
    } else {
      MapOfUpdate(q[1..], i - 1, value);
      assert q[i := (q[i].0, value)][1..] == q[1..][i - 1 := (q[i].0, value)];
    }
  }

  /** Upsert keeps the cache invariant (distinct keys, at most `capacity` nodes)
      and changes the dictionary as the C# class does: the key gets the value, and a
      new key at capacity first evicts the tail's key. */
  lemma UpsertKeepsInvariant<K, V>(q: seq<(K, V)>, capacity: int, key: K, value: V)
    requires 1 <= capacity && |q| <= capacity && DistinctKeys(q)
    ensures var r := Upsert(q, capacity, key, value);
      && DistinctKeys(r)
      && |r| <= capacity
      && MapOf(r) == (if key !in KeysOf(q) && |q| >= capacity
                      then MapOf(q) - {q[|q| - 1].0}
                      else MapOf(q))[key := value]
  {
    if key in KeysOf(q) {
      MapOfUpdate(q, KeyIndex(q, key), value);
    } else if |q| >= capacity {
      var n := |q|;
      MapOfRemoveAt(q, n - 1);
      assert q[..n - 1] + q[n..] == q[..n - 1];
      assert MapOf([(key, value)] + q[..n - 1]) == MapOf(q[..n - 1])[key := value];
      forall i | 0 <= i < n - 1
        ensures q[i].0 != key
      {
        assert q[i].0 == KeysOf(q)[i];
      }
    } else {
      forall i | 0 <= i < |q|
        ensures q[i].0 != key
      {
        assert q[i].0 == KeysOf(q)[i];
      }
      assert ([(key, value)] + q)[1..] == q;
    }
  }

  /** Updating a present key touches only that key's value: the same keys in the
      same order, the same length, nothing evicted, every other entry unchanged. */
  lemma UpsertPresentKey<K, V>(q: seq<(K, V)>, capacity: int, key: K, value: V)
    requires 1 <= capacity
    requires key in KeysOf(q)
    ensures var r := Upsert(q, capacity, key, value);
      && |r| == |q|
      && KeysOf(r) == KeysOf(q)
      && (forall i :: 0 <= i < |q| && q[i].0 != key ==> r[i] == q[i])
      && (key, value) in r
  {
  }

  /** A new key lands at the head; the rest is the old list, minus its tail (the
      oldest insertion still present) when the list was full. */
  lemma UpsertNewKey<K, V>(q: seq<(K, V)>, capacity: int, key: K, value: V)
    requires 1 <= capacity && |q| <= capacity
    requires key !in KeysOf(q)
    ensures var r := Upsert(q, capacity, key, value);
      && r[0] == (key, value)
      && r[1..] == (if |q| == capacity then q[..|q| - 1] else q)
  {
  }

  lemma {:induction false} KeysOfPrefix<K, V>(q: seq<(K, V)>, n: nat)
    requires n <= |q|
    ensures KeysOf(q[..n]) == KeysOf(q)[..n]
  {
  }

  /** Upserting a new key: its keys are the new key, then the old keys minus the
      tail's when the list was full. */
  lemma UpsertNewKeyKeys<K, V>(q: seq<(K, V)>, capacity: int, key: K, value: V)
    requires 1 <= capacity && |q| <= capacity
    requires key !in KeysOf(q)
    ensures var kept := if |q| == capacity then |q| - 1 else |q|;
      && |Upsert(q, capacity, key, value)| == kept + 1
      && KeysOf(Upsert(q, capacity, key, value)) == [key] + KeysOf(q)[..kept]
  {
    var kept := if |q| == capacity then |q| - 1 else |q|;
    var r := Upsert(q, capacity, key, value);
    assert r == [(key, value)] + q[..kept];
    assert KeysOf(r) == [key] + KeysOf(q[..kept]);
    KeysOfPrefix(q, kept);
  }

  /** The newest of distinct keys is not among the earlier ones. */
  lemma LastKeyIsNew<K, V>(kvs: seq<(K, V)>)
    requires DistinctKeys(kvs) && kvs != []
    ensures kvs[|kvs| - 1].0 !in KeysOf(kvs[..|kvs| - 1])
  {
    var n := |kvs|;
    var earlier := KeysOf(kvs[..n - 1]);
    forall m | 0 <= m < |earlier|
      ensures earlier[m] != kvs[n - 1].0
    {
      assert earlier[m] == kvs[m].0;
    }
  }

  lemma NotInReversedPrefix<T>(s: seq<T>, x: T, p: nat)
    requires x !in s && p <= |s|
    ensures x !in Reversed(s)[..p]
  {
    ReversedMultiset(s);
    assert x !in multiset(Reversed(s));
    assert Reversed(s) == Reversed(s)[..p] + Reversed(s)[p..];
  }

  /** Pushing `x` onto a prefix of a prefix of `b` gives a prefix of `[x] + b`. */
  lemma ConsPrefix<T>(x: T, a: seq<T>, b: seq<T>, kept: nat)
    requires |a| <= |b| && a == b[..|a|] && kept <= |a|
    ensures [x] + a[..kept] == ([x] + b)[..kept + 1]
  {
    assert a[..kept] == b[..kept];
  }

  /** Inserting keys that are all distinct into an empty cache leaves exactly the
      `capacity` most recently inserted ones (or all, if fewer), newest first. */
  lemma {:induction false} InsertDistinctKeepsNewest<K, V>(capacity: int, kvs: seq<(K, V)>)
    requires 1 <= capacity
    requires DistinctKeys(kvs)
    ensures var r := InsertAll([], capacity, kvs);
      && |r| == (if |kvs| < capacity then |kvs| else capacity)
      && KeysOf(r) == Reversed(KeysOf(kvs))[..|r|]
  {
    if kvs != [] {
      var n := |kvs|;
      var init, last := kvs[..n - 1], kvs[n - 1];
      var prev := InsertAll([], capacity, init);
      assert DistinctKeys(init);
      InsertDistinctKeepsNewest(capacity, init);
      var initKeys := KeysOf(init);
      assert KeysOf(kvs) == initKeys + [last.0];
      assert Reversed(KeysOf(kvs)) == [last.0] + Reversed(initKeys) by {
        assert (initKeys + [last.0])[..n - 1] == initKeys;
      }
      LastKeyIsNew(kvs);
      NotInReversedPrefix(initKeys, last.0, |prev|);
      UpsertNewKeyKeys(prev, capacity, last.0, last.1);
      var r := Upsert(prev, capacity, last.0, last.1);
      assert InsertAll([], capacity, kvs) == r;
      var kept := if |prev| == capacity then |prev| - 1 else |prev|;
      ConsPrefix(last.0, KeysOf(prev), Reversed(initKeys), kept);
    }
  }

  /** Keys a, b, c with values 1, 2, 3 into a cache of capacity 2 leave b and c;
      setting b to 20 changes only b's value; inserting d then evicts b, the
      oldest insertion still present. */
  lemma EvictionScenario()
    ensures InsertAll([], 2, [('a', 1), ('b', 2), ('c', 3)]) == [('c', 3), ('b', 2)]
    ensures Upsert([('c', 3), ('b', 2)], 2, 'b', 20) == [('c', 3), ('b', 20)]
    ensures Upsert([('c', 3), ('b', 20)], 2, 'd', 4) == [('d', 4), ('c', 3)]
  {
    var kvs := [('a', 1), ('b', 2), ('c', 3)];
    assert kvs[..2] == [('a', 1), ('b', 2)];
    assert kvs[..2][..1] == [('a', 1)];
    assert [('a', 1)][..0] == [];
    assert InsertAll([], 2, [('a', 1)]) == [('a', 1)];
    assert KeysOf([('a', 1)]) == ['a'];
    assert InsertAll([], 2, kvs[..2]) == [('b', 2), ('a', 1)];
    assert KeysOf([('b', 2), ('a', 1)]) == ['b', 'a'];
    assert KeysOf([('c', 3), ('b', 2)]) == ['c', 'b'];
    assert KeysOf([('c', 3), ('b', 20)]) == ['c', 'b'];
  }

  /** `LifoCache<Key, Value>`. */
  class LifoCache<K(==), V(==)> {
    /** Fixed for the object's lifetime. */
    const Capacity: int
    /** The linked list of pairs, newest insertion first. */
    var queue: seq<(K, V)>
    /** Key to the value held by that key's list node. */
    var dictionary: map<K, V>

    ghost predicate Valid()
      reads this
    {
      && 1 <= Capacity
      && |queue| <= Capacity
      && DistinctKeys(queue)
      && dictionary == MapOf(queue)
    }

    constructor(capacity: int)
      requires 1 <= capacity
      ensures Valid()
      ensures Capacity == capacity && queue == [] && dictionary == map[]
    {
      Capacity := capacity;
      queue := [];
      dictionary := map[];
    }

    /** The C# constructor, with its range check on `capacity`. */
    static method New(capacity: int) returns (r: Result<LifoCache<K, V>, CacheError>)
      ensures r.Failure? <==> capacity < 1
      ensures r.Failure? ==> r.error == ArgumentOutOfRange
      ensures r.Success? ==> && fresh(r.value) && r.value.Valid()
                             && r.value.Capacity == capacity && r.value.queue == []
    {
      if capacity < 1 {
        return Failure(ArgumentOutOfRange);
      }
      var cache := new LifoCache(capacity);
      return Success(cache);
    }

    /** The number of entries: one per dictionary key, never above `Capacity`. */
    function Count(): (n: nat)
      reads this
      requires Valid()
      ensures n <= Capacity && n == |dictionary|
    {
      MapOfSize(queue);
      |queue|
    }

    /** Indexer read: the value the list holds for `key`, or `KeyNotFound`. */
    function Get(key: K): (r: Result<V, CacheError>)
      reads this
      requires Valid()
      ensures r.Failure? <==> key !in KeysOf(queue)
      ensures r.Failure? ==> r.error == KeyNotFound
      ensures r.Success? ==> (key, r.value) in queue
    {
      MapOfDomain(queue);
      if key in dictionary then
        MapOfLookup(queue, KeyIndex(queue, key));
        Success(dictionary[key])
      else
        Failure(KeyNotFound)
    }

    /** `TryGetValue`: `None` stands for "false, and the default value". */
    function TryGetValue(key: K): (r: Option<V>)
      reads this
      requires Valid()
      ensures r.None? <==> key !in KeysOf(queue)
      ensures r.Some? ==> (key, r.value) in queue
    {
      MapOfDomain(queue);
      if key in dictionary then
        MapOfLookup(queue, KeyIndex(queue, key));
        Some(dictionary[key])
      else
        None
    }

    function ContainsKey(key: K): (b: bool)
      reads this
      requires Valid()
      ensures b <==> key in KeysOf(queue)
    {
      MapOfDomain(queue);
      key in dictionary
    }

    /** Whether the list holds a node equal to `item`: both key and value match. */
    function Contains(item: (K, V)): (b: bool)
      reads this
      requires Valid()
      ensures b <==> item.0 in dictionary && dictionary[item.0] == item.1
    {
      MapOfDomain(queue);
      if item in queue then
        var i :| 0 <= i < |queue| && queue[i] == item;
        MapOfLookup(queue, i);
        true
      else if item.0 in dictionary then
        MapOfLookup(queue, KeyIndex(queue, item.0));
        false
      else
        false
    }

    /** The keys, newest insertion first. */
    function Keys(): (ks: seq<K>)
      reads this
      requires Valid()
      ensures |ks| == Count()
      ensures forall i :: 0 <= i < |ks| ==> ks[i] == queue[i].0
      ensures forall i, j :: 0 <= i < j < |ks| ==> ks[i] != ks[j]
      ensures dictionary.Keys == set i | 0 <= i < |ks| :: ks[i]
    {
      MapOfDomain(queue);
      KeysOf(queue)
    }

    /** The values, in the same order as `Keys`. */
    function Values(): (vs: seq<V>)
      reads this
      requires Valid()
      ensures |vs| == Count()
      ensures forall i :: 0 <= i < |vs| ==> queue[i].0 in dictionary && dictionary[queue[i].0] == vs[i]
    {
      forall i | 0 <= i < |queue|
        ensures queue[i].0 in dictionary && dictionary[queue[i].0] == queue[i].1
      {
        MapOfLookup(queue, i);
      }
      ValuesOf(queue)
    }

    /** `InsertOrUpdateInternal`; returns whether `key` was new. */
    method InsertOrUpdate(key: K, value: V) returns (inserted: bool)
      requires Valid()
      modifies this
      ensures Valid()
      ensures inserted <==> key !in old(dictionary)
      ensures queue == Upsert(old(queue), Capacity, key, value)
      ensures dictionary == (if inserted && |old(queue)| >= Capacity
                             then old(dictionary) - {old(queue)[|old(queue)| - 1].0}
                             else old(dictionary))[key := value]
    {
      MapOfDomain(queue);
      UpsertKeepsInvariant(queue, Capacity, key, value);
      if key in dictionary {
        var i := KeyIndex(queue, key);
        queue := queue[i := (key, value)];
        dictionary := dictionary[key := value];
        return false;
      }
      if |queue| >= Capacity {
        var last := queue[|queue| - 1];
        dictionary := dictionary - {last.0};
        queue := queue[..|queue| - 1];
      }
      queue := [(key, value)] + queue;
      dictionary := dictionary[key := value];
      return true;
    }

    /** Indexer write: upsert. */
    method Set(key: K, value: V)
      requires Valid()
      modifies this
      ensures Valid()
      ensures queue == Upsert(old(queue), Capacity, key, value)
      ensures key in old(dictionary) ==> dictionary == old(dictionary)[key := value]
    {
      var _ := InsertOrUpdate(key, value);
    }

    /** Strict insert: `DuplicateKey` and no change when `key` is present. */
    method Add(key: K, value: V) returns (r: Outcome<CacheError>)
      requires Valid()
      modifies this
      ensures Valid()
      ensures r.Fail? <==> key in old(dictionary)
      ensures r.Fail? ==> r.error == DuplicateKey && queue == old(queue) && dictionary == old(dictionary)
      ensures r.Pass? ==> queue == Upsert(old(queue), Capacity, key, value)
    {
      if key in dictionary {
        return Fail(DuplicateKey);
      }
      var _ := InsertOrUpdate(key, value);
      return Pass;
    }

    /** `Add(KeyValuePair)`: the same as `Add(item.Key, item.Value)`. */
    method AddPair(item: (K, V)) returns (r: Outcome<CacheError>)
      requires Valid()
      modifies this
      ensures Valid()
      ensures r.Fail? <==> item.0 in old(dictionary)
      ensures r.Fail? ==> r.error == DuplicateKey && queue == old(queue) && dictionary == old(dictionary)
      ensures r.Pass? ==> queue == Upsert(old(queue), Capacity, item.0, item.1)
    {
      if item.0 in dictionary {
        return Fail(DuplicateKey);
      }
      var _ := InsertOrUpdate(item.0, item.1);
      return Pass;
    }

    method Clear()
      requires Valid()
      modifies this
      ensures Valid()
      ensures queue == [] && dictionary == map[]
    {
      dictionary := map[];
      queue := [];
    }

    /** Removes `key`'s node from the list and its entry from the dictionary. */
    method Remove(key: K) returns (removed: bool)
      requires Valid()
      modifies this
      ensures Valid()
      ensures removed <==> key in old(dictionary)
      ensures dictionary == old(dictionary) - {key}
      ensures !removed ==> queue == old(queue)
      ensures removed ==> exists i :: 0 <= i < |old(queue)| && old(queue)[i].0 == key
                                      && queue == old(queue)[..i] + old(queue)[i + 1..]
    {
      MapOfDomain(queue);
      if key !in dictionary {
        return false;
      }
      var i := KeyIndex(queue, key);
      MapOfRemoveAt(queue, i);
      queue := queue[..i] + queue[i + 1..];
      dictionary := dictionary - {key};
      return true;
    }

    /** Removes the node equal to `item`, if any, from both structures. */
    method RemovePair(item: (K, V)) returns (removed: bool)
      requires Valid()
      modifies this
      ensures Valid()
      ensures removed <==> item in old(queue)
      ensures !removed ==> queue == old(queue) && dictionary == old(dictionary)
      ensures removed ==> dictionary == old(dictionary) - {item.0}
      ensures removed ==> exists i :: 0 <= i < |old(queue)| && old(queue)[i] == item
                                      && queue == old(queue)[..i] + old(queue)[i + 1..]
    {
      if item !in queue {
        return false;
      }
      var i :| 0 <= i < |queue| && queue[i] == item;
      MapOfRemoveAt(queue, i);
      queue := queue[..i] + queue[i + 1..];
      dictionary := dictionary - {item.0};
      return true;
    }

    /** A snapshot of the entries, each exactly once, in an order left unstated. */
    method GetEnumerator() returns (items: seq<(K, V)>)
      requires Valid()
      ensures |items| == Count()
      ensures forall p :: p in items <==> p.0 in dictionary && dictionary[p.0] == p.1
    {
      MapOfDomain(queue);
      forall p: (K, V) | p.0 in dictionary && dictionary[p.0] == p.1
        ensures p in queue
      {
        var i := KeyIndex(queue, p.0);
        MapOfLookup(queue, i);
      }
      forall i | 0 <= i < |queue|
        ensures queue[i].0 in dictionary && dictionary[queue[i].0] == queue[i].1
      {
        MapOfLookup(queue, i);
      }
      items := queue;
    }

    /** Copies the enumeration snapshot into `a` from `arrayIndex` on. */
    method CopyTo(a: array<(K, V)>, arrayIndex: nat)
      requires Valid()
      requires arrayIndex + |queue| <= a.Length
      modifies a
      ensures forall p :: p in a[arrayIndex..arrayIndex + |queue|] <==> p.0 in dictionary && dictionary[p.0] == p.1
      ensures a[..arrayIndex] == old(a[..arrayIndex])
      ensures a[arrayIndex + |queue|..] == old(a[arrayIndex + |queue|..])
    {
      var items := GetEnumerator();
      var n := |items|;
      forall k | arrayIndex <= k < arrayIndex + n {
        a[k] := items[k - arrayIndex];
      }
      assert a[arrayIndex..arrayIndex + n] == items;
    }
  }
}

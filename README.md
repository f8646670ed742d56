# Sorted priority queue and insertion-order cache, in Dafny

This project models the two sequential container engines of the Collections
library:

- `PriorityQueue<T>` (module `PriorityQueues`): a `List<T>` kept non-decreasing
  under a caller-supplied comparison, so that its last element is a maximum.
  The constructors store the caller's comparison negated. `Add` finds its
  insertion index with a binary search (`LowerBound`) and inserts there.
  `Take` and `Peek` work on the last slot and return `default(T)` on an empty
  queue. Enumeration and `CopyTo` hand out a reversed snapshot, maximum first.
- `LifoCache<Key, Value>` (module `LifoCaches`): a dictionary bounded by a fixed
  `Capacity`. It keeps a linked list of key/value pairs (head = newest
  insertion) and a dictionary from key to list node. A present key is updated
  in place without moving its node. A new key pushed onto a full cache first
  evicts the tail, which is the oldest insertion still present. Reads and
  updates never refresh an entry's position.

Both classes are Dafny classes whose fields the methods reassign:

- `PriorityQueue.bag: seq<T>` is the backing list.
- `LifoCache.queue: seq<(K, V)>` is the linked list, with index 0 as the head.
- `LifoCache.dictionary: map<K, V>` maps each key to the value its node holds.
- `Valid()` is each class's invariant. For the queue: the comparison is a
  total preorder, the stored comparison is its negation, and `bag` is sorted.
  For the cache: `Capacity >= 1`, at most `Capacity` nodes, distinct keys, and
  `dictionary == MapOf(queue)`, so the dictionary's keys are exactly the
  list's keys.

Modelling choices:

- The comparison is a function value `(T, T) -> int`, and the constructor
  requires it to be a total preorder (`TotalPreorder`). The `Comparison<T>`
  and `Comparer<T>` constructors differ only in how the caller supplies this
  function, so one constructor models both.
- `default(T)` from `Take`/`Peek` and the default value from `TryGetValue`
  become `Option.None`.
- Thrown exceptions become `Result`/`Outcome` values carrying a `CacheError`.
  The range check on the cache's capacity is the static method `New`.
- The model includes pure reference definitions. `Insert` is a linear
  insertion, `AddAll` is successive insertions, `Ties` picks out the elements
  equivalent to a key, `Upsert` and `InsertAll` give the cache's list after
  upserts, and `MapOf` gives the dictionary a list describes. Each method is
  proved against these definitions, and the lemmas state what the C# classes
  promise about them.
- `SearchFrom` and `AddWith` are the binary search and `Add` exactly as the
  C# code writes them, over any stored comparison. The class's `Add` is proved
  equal to `AddWith` of its stored comparison. This is how the finding below
  runs the search on the comparison as written.

Among equivalent elements, the earliest-inserted is taken first (first in,
first out). `LowerBound` returns the first index whose element is not less
than the new item, so the new item goes in front of every equivalent element
(PriorityQueue.cs:40-46). `Take` pops from the end (PriorityQueue.cs:106-107),
so the oldest of the equivalent elements leaves first.
`TiesLeaveInInsertionOrder` proves this for every insertion sequence, and
`TieScenario` shows it on two tied pairs.

## Model

| member | source | states |
|---|---|---|
| `PriorityQueues.PriorityQueue.constructor` | PriorityQueue.cs:130-135 | the queue starts empty and stores the caller's comparison negated; the caller's comparison must be a total preorder |
| `PriorityQueues.PriorityQueue.Count` | PriorityQueue.cs:12 | the number of stored elements, counting duplicates |
| `PriorityQueues.PriorityQueue.LowerBound` | PriorityQueue.cs:30-49 | the binary search returns an index i <= Count such that every element before i is strictly less than the item and every element from i on is not less than it |
| `PriorityQueues.SearchFrom` | PriorityQueue.cs:30-49 | the binary search loop as written, over any stored comparison: it examines `amount` elements from `first` on and stops at an index between `first` and `first + amount` |
| `PriorityQueues.AddWith` | PriorityQueue.cs:19-28 | `Add` as written over any stored comparison: the list grows by exactly the item, as a multiset, and its length rises by one |
| `PriorityQueues.SearchFromSplits` | PriorityQueue.cs:30-49 | the binary search as written, given a stored comparison that is exactly the negation of a total preorder, stops at the index splitting a sorted list into strictly-less and not-less elements |
| `PriorityQueues.AddWithExact` | PriorityQueue.cs:19-28 | with the stored comparison exactly negated, `Add` as written equals the reference insertion `Insert` and keeps the list sorted |
| `PriorityQueues.InsertAt` | PriorityQueue.cs:26-27 | inserting at any index that splits the list this way gives the same list as the linear reference insertion `Insert` |
| `PriorityQueues.PriorityQueue.Add` | PriorityQueue.cs:19-28 | `Add` keeps the list sorted, gives the list `Insert(order, old bag, item)`, which is also `AddWith` of the stored comparison (the search as written), raises Count by one and adds exactly `item` to the contents |
| `PriorityQueues.InsertSorted` | PriorityQueue.cs:19-28 | insertion keeps the list non-decreasing, so its last element stays a maximum |
| `PriorityQueues.InsertMultiset` | PriorityQueue.cs:21-27 | insertion adds exactly the new element to the contents, as a multiset |
| `PriorityQueues.InsertTies` | PriorityQueue.cs:40-46 | the new element goes in front of every stored element equivalent to it; the other elements keep their order |
| `PriorityQueues.PriorityQueue.AddRange` | PriorityQueue.cs:51-55 | `AddRange` gives the same list as successive `Add`s in iteration order, and keeps it sorted |
| `PriorityQueues.AddAllSorted` | PriorityQueue.cs:51-55 | successive insertions keep the list non-decreasing |
| `PriorityQueues.AddAllMultiset` | PriorityQueue.cs:51-55 | successive insertions add exactly the inserted elements to the contents |
| `PriorityQueues.AddAllTies` | PriorityQueue.cs:51-55 | after successive insertions, the elements equivalent to any key sit in the list in reverse insertion order |
| `PriorityQueues.TiesLeaveInInsertionOrder` | PriorityQueue.cs:102-109 | repeated `Take` from a queue filled by any insertion sequence hands equivalent elements out earliest-inserted first |
| `PriorityQueues.TieScenario` | PriorityQueue.cs:40-46 | adding (1,'a') then (1,'b') under a comparison of the first component only: (1,'a') is taken first |
| `PriorityQueues.PriorityScenario` | PriorityQueue.cs:102-109 | adding 5, 1, 9, 3 and taking four times yields 9, 5, 3, 1 |
| `PriorityQueues.PriorityQueue.Peek` | PriorityQueue.cs:115-120 | `None` exactly on an empty queue; otherwise a stored element that no stored element exceeds |
| `PriorityQueues.PriorityQueue.Take` | PriorityQueue.cs:102-109 | returns what `Peek` returned before; an empty queue is left unchanged; otherwise exactly the last (maximum) element is removed and the list stays sorted |
| `PriorityQueues.PriorityQueue.Contains` | PriorityQueue.cs:65-68 | true exactly when some stored element equals the item |
| `PriorityQueues.PriorityQueue.Remove` | PriorityQueue.cs:93-96 | returns whether an equal element was stored; removes exactly one equal element (the first) and no other; the list stays sorted |
| `PriorityQueues.RemoveFirstMultiset` | PriorityQueue.cs:93-96 | removal takes exactly one copy of the item out of the contents, or nothing if there is none |
| `PriorityQueues.RemoveFirstSorted` | PriorityQueue.cs:93-96 | removal keeps the list non-decreasing |
| `PriorityQueues.PriorityQueue.Clear` | PriorityQueue.cs:57-60 | the queue is empty afterwards and remains valid |
| `PriorityQueues.PriorityQueue.GetEnumerator` | PriorityQueue.cs:83-88 | the snapshot is the list reversed: the same elements, non-increasing, with the `Peek` value first; the queue is not modified |
| `PriorityQueues.ReversedSortedIsNonIncreasing` | PriorityQueue.cs:85-86 | reversing a non-decreasing list gives a non-increasing one |
| `Sequences.ReversedMultiset` | PriorityQueue.cs:75-76 | the reversed copy holds the same elements |
| `Sequences.ReversedAt` | PriorityQueue.cs:85-86 | position k of the reversed copy holds the element at position Count-1-k |
| `PriorityQueues.PriorityQueue.CopyTo` | PriorityQueue.cs:73-78 | writes the reversed snapshot into the array from `arrayIndex` on and leaves the rest of the array alone |
| `PriorityQueues.NegationAsWrittenKeepsSign` | PriorityQueue.cs:134 | with `MinValueOrder`, a legal total-preorder comparison that answers "less" with `int.MinValue`, the 32-bit negation keeps the sign of "1 is less than 2"; `Add` as written (`AddWith`) of 2 then 1 with that stored comparison builds [2, 1], which is not sorted, and its last slot, which `Take` pops, holds the smaller 1 |
| `PriorityQueues.NegationExactlyFlipsSign` | PriorityQueue.cs:134 | with the stored comparison exactly negated, the same two adds give the sorted [1, 2] |
| `PriorityQueues.NegateInt32` | PriorityQueue.cs:134 | C#'s 32-bit unary minus: exact negation except on `int.MinValue`, which it leaves unchanged |
| `LifoCaches.LifoCache.New` | LifoCache.cs:14-19 | fails with `ArgumentOutOfRange` exactly when capacity < 1; otherwise a fresh, valid, empty cache with that fixed capacity |
| `LifoCaches.LifoCache.constructor` | LifoCache.cs:14-19 | an empty, valid cache whose `Capacity` is the argument and never changes |
| `LifoCaches.LifoCache.Count` | LifoCache.cs:70-76 | the number of entries is at most `Capacity` and equals the number of dictionary keys |
| `LifoCaches.MapOfSize` | LifoCache.cs:185-186 | with distinct keys, the dictionary has exactly one entry per list node |
| `LifoCaches.MapOfDomain` | LifoCache.cs:185-186 | the dictionary's keys are exactly the list's keys |
| `LifoCaches.MapOfLookup` | LifoCache.cs:185-186 | with distinct keys, the dictionary holds for each node's key the value in that node |
| `LifoCaches.KeyIndex` | LifoCache.cs:150 | the node for a present key: an index of the list whose key is that key |
| `LifoCaches.LifoCache.Get` | LifoCache.cs:21-27 | fails with `KeyNotFound` exactly when the key is absent; otherwise returns the value stored with that key in the list |
| `LifoCaches.LifoCache.TryGetValue` | LifoCache.cs:169-177 | `None` (false, default value) exactly when the key is absent; otherwise the value stored with that key |
| `LifoCaches.LifoCache.ContainsKey` | LifoCache.cs:114-117 | true exactly when the key is in the list |
| `LifoCaches.LifoCache.Contains` | LifoCache.cs:109-112 | the list search for the pair succeeds exactly when the dictionary maps the pair's key to the pair's value |
| `LifoCaches.LifoCache.Keys` | LifoCache.cs:54-60 | the keys, newest insertion first, without duplicates, exactly the dictionary's keys, as many as `Count` |
| `LifoCaches.LifoCache.Values` | LifoCache.cs:62-68 | the values in the same order as `Keys`, each the dictionary's value for the key at that position |
| `LifoCaches.Upsert` | LifoCache.cs:37-52 | `InsertOrUpdateInternal` on the list: afterwards the key holds the new value; a present key keeps the length; a new key adds one node, or replaces the evicted tail when the list is full |
| `LifoCaches.LifoCache.InsertOrUpdate` | LifoCache.cs:37-52 | reports whether the key was new; the list becomes `Upsert` of the old list; the dictionary gets the new value, after losing the tail's key when a new key met a full cache; the invariant holds afterwards |
| `LifoCaches.UpsertKeepsInvariant` | LifoCache.cs:37-52 | an upsert keeps the keys distinct and the count at most the capacity, and updates the dictionary in step with the list, including the eviction |
| `LifoCaches.MapOfUpdate` | LifoCache.cs:39-42 | replacing the value in a key's node replaces that key's value in the dictionary and nothing else |
| `LifoCaches.UpsertPresentKey` | LifoCache.cs:39-42 | an upsert on a present key keeps the length and the key order, evicts nothing and changes no other entry |
| `LifoCaches.UpsertNewKey` | LifoCache.cs:44-50 | a new key goes to the head; the rest is the old list, without its tail (the oldest insertion still present) exactly when the cache was full |
| `LifoCaches.InsertDistinctKeepsNewest` | LifoCache.cs:44-50 | after inserting N distinct keys into an empty cache, exactly min(N, Capacity) entries remain: the most recently inserted keys, newest first |
| `LifoCaches.EvictionScenario` | LifoCache.cs:37-52 | capacity 2: a:1, b:2, c:3 leaves c, b; setting b to 20 changes only b's value; inserting d:4 then evicts b |
| `LifoCaches.LifoCache.Set` | LifoCache.cs:28-34 | the indexer write is an upsert; on a present key, only that key's value changes |
| `LifoCaches.LifoCache.Add` | LifoCache.cs:80-88 | fails with `DuplicateKey` and changes nothing exactly when the key is present; otherwise behaves as the upsert |
| `LifoCaches.LifoCache.AddPair` | LifoCache.cs:90-98 | the same as `Add` on the pair's key and value |
| `LifoCaches.LifoCache.Clear` | LifoCache.cs:100-107 | empties both the list and the dictionary |
| `LifoCaches.LifoCache.Remove` | LifoCache.cs:144-154 | returns whether the key was present; if absent nothing changes; otherwise exactly that key's node leaves the list and the key leaves the dictionary |
| `LifoCaches.MapOfRemoveAt` | LifoCache.cs:150-151 | removing a node from the list removes just its key from the dictionary |
| `LifoCaches.LifoCache.RemovePair` | LifoCache.cs:156-167 | matches only a node whose key and value both equal the pair's; returns whether there was one; if so, removes it from the list and its key from the dictionary, and otherwise changes nothing |
| `LifoCaches.LifoCache.GetEnumerator` | LifoCache.cs:132-142 | a snapshot with one entry per key, holding exactly the dictionary's key/value pairs; no order is stated |
| `LifoCaches.LifoCache.CopyTo` | LifoCache.cs:119-130 | writes exactly the dictionary's key/value pairs into the array from `arrayIndex` on and leaves the rest of the array alone; no order is stated |

## Findings

| source | as written | input that shows it | evidently intended | confidence | as-written member | corrected member |
|---|---|---|---|---|---|---|
| PriorityQueue.cs:134 | the stored comparison is `-comparison(l, r)` in 32-bit arithmetic, and `-int.MinValue` wraps to `int.MinValue` | a comparison that returns `int.MinValue` for "less" (legal for `Comparison<T>`); add 2, then 1: the stored comparison of 1 against 2 stays negative, so the search moves past 2, the list becomes [2, 1], and `Take` returns 1 before 2 | the stored comparison has the opposite sign of the caller's for every result | medium, not executed | `PriorityQueues.NegationAsWrittenKeepsSign` | `PriorityQueues.AddWithExact` |

The rest of the model uses exact negation. The `PriorityQueue` constructor's
`Valid()` records that the stored comparison is exactly the negation of the
caller's. On that basis `LowerBound` and `Add` are proved to keep the list
sorted. `AddWithExact` proves that the as-written `Add` with an exactly
negated comparison is the sorted insertion `Insert`. `NegationExactlyFlipsSign`
shows that the two adds above then give [1, 2].

## Left out

- BlockingPriorityQueue: its only logic of its own is the monitor wait/pulse and cancellation protocol, which concurrency makes out of scope here. Its other members are `PriorityQueue` behind a lock, so this model covers their sequential meaning.
- Locking (`lock (SyncRoot)`): each public operation is modelled as atomic and single-threaded.
- `DisposableList`, `IQueue` and `IBlockingQueue`: a pass-through wrapper and interface declarations, with no behaviour of their own.
- The parameterless `PriorityQueue` constructor: it uses `Comparer<T>.Default`, which has no generic counterpart here.
- The `ArgumentNullException` checks on a null comparison or comparer: a Dafny function value cannot be null.
- The `ArgumentNullException` that the cache's `Dictionary` throws on a null key (LifoCache.cs:26, 39, 84, 94, 116, 148, 173): the key type `K` of the model has no null value, so the case cannot arise.
- PriorityQueues.PriorityQueue.CopyTo: requires that the array has room from `arrayIndex` on, instead of modelling .NET's argument exceptions for a negative index or a short array.
- LifoCaches.LifoCache.CopyTo: requires that the array has room from `arrayIndex` on, instead of modelling .NET's argument exceptions.
- LifoCaches.LifoCache.GetEnumerator: states only which pairs the snapshot holds, because the C# class enumerates the `Dictionary`, whose order .NET does not specify.
- LifoCaches.LifoCache.CopyTo: states only which pairs the array receives, for the same reason.
- LifoCaches.KeyIndex: the C# class reaches a key's list node through the dictionary in constant time. The model finds the node's position by searching the list. This changes the cost, not the result.
- PriorityQueues.PriorityQueue.Contains: uses Dafny equality, which stands for .NET's default equality on `T`.
- PriorityQueues.PriorityQueue.Remove: uses Dafny equality, which stands for .NET's default equality on `T`.
- Comparison results are unbounded integers with exact negation everywhere except in the finding above.
- The complexity claims in the doc comments (O(log n), O(1)) are performance, not behaviour.
- `IsReadOnly` is a constant `false`, so it is not modelled.

/** A priority queue kept as a list sorted by a caller-supplied comparison: the
    backing list is non-decreasing, so its last element is a maximum, and
    `Take` and `Peek` work on the last slot. */
module PriorityQueues {
  import opened Results
  import opened Sequences

  /** `order` is a three-way comparison (negative: less, zero: equivalent,
      positive: greater) whose "at most" relation is a total preorder. */
  ghost predicate TotalPreorder<T(!new)>(order: (T, T) -> int) {
    && (forall a, b :: order(a, b) < 0 <==> order(b, a) > 0)
    && (forall a, b, c {:trigger order(a, b), order(b, c), order(a, c)}
          :: order(a, b) <= 0 && order(b, c) <= 0 ==> order(a, c) <= 0)
  }

  lemma LessThenAtMost<T(!new)>(order: (T, T) -> int, a: T, b: T, c: T)
    requires TotalPreorder(order)
    requires order(a, b) < 0 && order(b, c) <= 0
    ensures order(a, c) < 0
  {
  }

  lemma AtMostThenLess<T(!new)>(order: (T, T) -> int, a: T, b: T, c: T)
    requires TotalPreorder(order)
    requires order(a, b) <= 0 && order(b, c) < 0
    ensures order(a, c) < 0
  {
  }

  /** Non-decreasing under `order`. */
  ghost predicate Sorted<T>(order: (T, T) -> int, s: seq<T>) {
    forall i, j :: 0 <= i < j < |s| ==> order(s[i], s[j]) <= 0
  }

  /** In a sorted list, an element strictly less than `x` has only such elements
      before it. */
  lemma LessUpTo<T(!new)>(order: (T, T) -> int, s: seq<T>, x: T, i: nat)
    requires TotalPreorder(order) && Sorted(order, s)
    requires i < |s| && order(s[i], x) < 0
    ensures forall k :: 0 <= k <= i ==> order(s[k], x) < 0
  {
    forall k | 0 <= k < i
      ensures order(s[k], x) < 0
    {
      AtMostThenLess(order, s[k], s[i], x);
    }
  }

  /** In a sorted list, an element that `x` is at most has only elements `x` is
      at most after it, none of them less than `x`. */
  lemma NotLessFrom<T(!new)>(order: (T, T) -> int, s: seq<T>, x: T, i: nat)
    requires TotalPreorder(order) && Sorted(order, s)
    requires i < |s| && order(x, s[i]) <= 0
    ensures forall k :: i <= k < |s| ==> order(s[k], x) >= 0
  {
    forall k | i < k < |s|
      ensures order(s[k], x) >= 0
    {
      assert order(s[i], s[k]) <= 0;
    }
  }

  /** Reference insertion, independent of the binary search: walk from the front
      past the elements strictly less than `x` and put `x` there. */
  ghost function Insert<T>(order: (T, T) -> int, s: seq<T>, x: T): seq<T> {
    if s == [] then [x]
    else if order(s[0], x) < 0 then [s[0]] + Insert(order, s[1..], x)
    else [x] + s
  }

  /** Successive insertions of `xs`, in iteration order. */
  ghost function AddAll<T>(order: (T, T) -> int, s: seq<T>, xs: seq<T>): seq<T>
    decreases |xs|
  {
    if xs == [] then s else AddAll(order, Insert(order, s, xs[0]), xs[1..])
  }

  /** The elements of `s` equivalent to `k` under `order`, in the order of `s`. */
  ghost function Ties<T>(order: (T, T) -> int, s: seq<T>, k: T): seq<T> {
    if s == [] then []
    else (if order(s[0], k) == 0 then [s[0]] else []) + Ties(order, s[1..], k)
  }

  /** `List<T>.Remove`: drop the first element equal to `x`, if there is one. */
  function RemoveFirst<T(==)>(s: seq<T>, x: T): seq<T> {
    if s == [] then []
    else if s[0] == x then s[1..]
    else [s[0]] + RemoveFirst(s[1..], x)
  }

  /** The binary search of `LowerBound` as written, over any stored comparison
      `cmp`: `amount` elements from `first` on are still to be examined, and the
      probe at the midpoint moves past it while `cmp(item, probe)` is negative. */
  function SearchFrom<T>(cmp: (T, T) -> int, s: seq<T>, item: T, first: nat, amount: nat): (r: nat)
    requires first + amount <= |s|
    ensures first <= r <= first + amount
    decreases amount
  {
    if amount == 0 then first
    else
      var step := amount / 2;
      if cmp(item, s[first + step]) < 0
      then SearchFrom(cmp, s, item, first + step + 1, amount - (step + 1))
      else SearchFrom(cmp, s, item, first, step)
  }

  /** `Add` as written, over any stored comparison `cmp`: append to an empty list,
      otherwise insert where the binary search stops. */
  function AddWith<T>(cmp: (T, T) -> int, s: seq<T>, item: T): (r: seq<T>)
    ensures |r| == |s| + 1
    ensures multiset(r) == multiset(s) + multiset{item}
  {
    if |s| == 0 then s + [item]
    else
      var i := SearchFrom(cmp, s, item, 0, |s|);
      assert s == s[..i] + s[i..];
      s[..i] + [item] + s[i..]
  }

  /** Any index that splits `s` into "strictly less than `x`" and "not less than
      `x`" is where `Insert` puts `x`; this is what ties the binary search to it. */
  lemma {:induction false} InsertAt<T>(order: (T, T) -> int, s: seq<T>, x: T, i: nat)
    requires i <= |s|
    requires forall k :: 0 <= k < i ==> order(s[k], x) < 0
    requires forall k :: i <= k < |s| ==> order(s[k], x) >= 0
    ensures Insert(order, s, x) == s[..i] + [x] + s[i..]
  {
    if s != [] && order(s[0], x) < 0 {
      InsertAt(order, s[1..], x, i - 1);
      assert s[..i] == [s[0]] + s[1..][..i - 1];
      assert s[i..] == s[1..][i - 1..];
    }
  }

  /** With a stored comparison that is exactly the negation of a total preorder,
      the binary search as written stops at the index splitting a sorted list into
      "strictly less than `x`" and "not less than `x`". */
  lemma {:induction false} SearchFromSplits<T(!new)>(order: (T, T) -> int, cmp: (T, T) -> int,
                                                     s: seq<T>, x: T, first: nat, amount: nat)
    requires TotalPreorder(order) && Sorted(order, s)
    requires forall l, r :: cmp(l, r) == -order(l, r)
    requires first + amount <= |s|
    requires forall k :: 0 <= k < first ==> order(s[k], x) < 0
    requires forall k :: first + amount <= k < |s| ==> order(s[k], x) >= 0
    ensures var r := SearchFrom(cmp, s, x, first, amount);
      && (forall k :: 0 <= k < r ==> order(s[k], x) < 0)
      && (forall k :: r <= k < |s| ==> order(s[k], x) >= 0)
    decreases amount
  {
    if amount > 0 {
      var step := amount / 2;
      var it := first + step;
      if cmp(x, s[it]) < 0 {
        assert order(s[it], x) < 0;
        LessUpTo(order, s, x, it);
        SearchFromSplits(order, cmp, s, x, it + 1, amount - (step + 1));
      } else {
        assert order(x, s[it]) <= 0;
        NotLessFrom(order, s, x, it);
        SearchFromSplits(order, cmp, s, x, first, step);
      }
    }
  }

  /** With the exact negation of a total preorder stored, `Add` as written is the
      reference insertion `Insert`, and so keeps the list sorted. */
  lemma AddWithExact<T(!new)>(order: (T, T) -> int, cmp: (T, T) -> int, s: seq<T>, x: T)
    requires TotalPreorder(order) && Sorted(order, s)
    requires forall l, r :: cmp(l, r) == -order(l, r)
    ensures AddWith(cmp, s, x) == Insert(order, s, x)
    ensures Sorted(order, AddWith(cmp, s, x))
  {
    InsertSorted(order, s, x);
    if |s| > 0 {
      SearchFromSplits(order, cmp, s, x, 0, |s|);
      InsertAt(order, s, x, SearchFrom(cmp, s, x, 0, |s|));
    }
  }

  /** Insertion adds exactly `x` to the contents. */
  lemma {:induction false} InsertMultiset<T>(order: (T, T) -> int, s: seq<T>, x: T)
    ensures multiset(Insert(order, s, x)) == multiset(s) + multiset{x}
  {
    if s != [] && order(s[0], x) < 0 {
      InsertMultiset(order, s[1..], x);
      assert s == [s[0]] + s[1..];
    }
  }

  /** Every element of `Insert(order, s, x)` is `x` or an element of `s`. */
  lemma {:induction false} InsertElements<T>(order: (T, T) -> int, s: seq<T>, x: T)
    ensures forall e :: e in Insert(order, s, x) ==> e == x || e in s
  {
    if s != [] && order(s[0], x) < 0 {
      InsertElements(order, s[1..], x);
      assert forall e :: e in s[1..] ==> e in s;
    }
  }

  /** A sorted tail behind a head at most each of its elements is sorted. */
  lemma SortedCons<T>(order: (T, T) -> int, a: T, t: seq<T>)
    requires Sorted(order, t)
    requires forall e :: e in t ==> order(a, e) <= 0
    ensures Sorted(order, [a] + t)
  {
    forall i, j | 0 <= i < j < |[a] + t|
      ensures order(([a] + t)[i], ([a] + t)[j]) <= 0
    {
      assert ([a] + t)[j] == t[j - 1];
      if i > 0 {
        assert ([a] + t)[i] == t[i - 1];
      }
    }
  }

  /** Insertion keeps the list non-decreasing, so its last element stays a maximum. */
  lemma {:induction false} InsertSorted<T(!new)>(order: (T, T) -> int, s: seq<T>, x: T)
    requires TotalPreorder(order)
    requires Sorted(order, s)
    ensures Sorted(order, Insert(order, s, x))
  {
    if s == [] {
    } else if order(s[0], x) < 0 {
      var t := Insert(order, s[1..], x);
      InsertSorted(order, s[1..], x);
      InsertElements(order, s[1..], x);
      forall e | e in t
        ensures order(s[0], e) <= 0
      {
        if e != x {
          var m :| 0 <= m < |s[1..]| && s[1..][m] == e;
          assert s[1 + m] == e;
        }
      }
      SortedCons(order, s[0], t);
    } else {
      assert order(x, s[0]) <= 0;
      forall e | e in s
        ensures order(x, e) <= 0
      {
        var j :| 0 <= j < |s| && s[j] == e;
        if j > 0 {
          assert order(s[0], s[j]) <= 0;
        }
      }
      SortedCons(order, x, s);
    }
  }

  /** Insertion puts `x` in front of every element equivalent to it: among the
      elements equivalent to any `k`, the new one comes first. */
  lemma {:induction false} InsertTies<T(!new)>(order: (T, T) -> int, s: seq<T>, x: T, k: T)
    requires TotalPreorder(order)
    ensures Ties(order, Insert(order, s, x), k)
         == (if order(x, k) == 0 then [x] else []) + Ties(order, s, k)
  {
    if s == [] {
    } else if order(s[0], x) < 0 {
      InsertTies(order, s[1..], x, k);
      var t := Insert(order, s[1..], x);
      assert Insert(order, s, x) == [s[0]] + t;
      assert ([s[0]] + t)[1..] == t;
      if order(x, k) == 0 {
        // s[0] is strictly below x, which is equivalent to k, so s[0] is not a tie of k
        LessThenAtMost(order, s[0], x, k);
      }
    } else {
      assert Insert(order, s, x)[1..] == s;
    }
  }

  lemma {:induction false} AddAllMultiset<T>(order: (T, T) -> int, s: seq<T>, xs: seq<T>)
    ensures multiset(AddAll(order, s, xs)) == multiset(s) + multiset(xs)
    decreases |xs|
  {
    if xs != [] {
      InsertMultiset(order, s, xs[0]);
      AddAllMultiset(order, Insert(order, s, xs[0]), xs[1..]);
      assert xs == [xs[0]] + xs[1..];
    }
  }

  lemma {:induction false} AddAllSorted<T(!new)>(order: (T, T) -> int, s: seq<T>, xs: seq<T>)
    requires TotalPreorder(order)
    requires Sorted(order, s)
    ensures Sorted(order, AddAll(order, s, xs))
    decreases |xs|
  {
    if xs != [] {
      InsertSorted(order, s, xs[0]);
      AddAllSorted(order, Insert(order, s, xs[0]), xs[1..]);
    }
  }

  lemma {:induction false} TiesAppend<T>(order: (T, T) -> int, a: seq<T>, b: seq<T>, k: T)
    ensures Ties(order, a + b, k) == Ties(order, a, k) + Ties(order, b, k)
  {
    if a != [] {
      TiesAppend(order, a[1..], b, k);
      assert (a + b)[1..] == a[1..] + b;
    } else {
      assert a + b == b;
    }
  }

  lemma {:induction false} TiesReversed<T>(order: (T, T) -> int, s: seq<T>, k: T)
    ensures Ties(order, Reversed(s), k) == Reversed(Ties(order, s, k))
  {
    if s != [] {
      var init, last := s[..|s| - 1], s[|s| - 1];
      var lastTies := if order(last, k) == 0 then [last] else [];
      assert s == init + [last];
      TiesAppend(order, init, [last], k);
      assert Ties(order, [last], k) == lastTies;
      TiesAppend(order, [last], Reversed(init), k);
      TiesReversed(order, init, k);
      ReversedAppend(Ties(order, init, k), lastTies);
    }
  }

  /** After adding `xs` one by one, the elements equivalent to `k` sit in the list
      in the reverse of their insertion order, in front of those already there. */
  lemma {:induction false} AddAllTies<T(!new)>(order: (T, T) -> int, s: seq<T>, xs: seq<T>, k: T)
    requires TotalPreorder(order)
    ensures Ties(order, AddAll(order, s, xs), k) == Reversed(Ties(order, xs, k)) + Ties(order, s, k)
    decreases |xs|
  {
    if xs != [] {
      var headTies := if order(xs[0], k) == 0 then [xs[0]] else [];
      AddAllTies(order, Insert(order, s, xs[0]), xs[1..], k);
      InsertTies(order, s, xs[0], k);
      ReversedAppend(headTies, Ties(order, xs[1..], k));
    }
  }

  /** Repeated `Take` hands the stored elements out from the last slot, i.e. as
      `Reversed` of the list. Starting from an empty queue and adding `xs`,
      equivalent elements come out in the order they were added, earliest first:
      first-in-first-out among ties. */
  lemma {:induction false} TiesLeaveInInsertionOrder<T(!new)>(order: (T, T) -> int, xs: seq<T>, k: T)
    requires TotalPreorder(order)
    ensures Ties(order, Reversed(AddAll(order, [], xs)), k) == Ties(order, xs, k)
  {
    TiesReversed(order, AddAll(order, [], xs), k);
    AddAllTies(order, [], xs, k);
    assert Ties(order, [], k) == [];
    assert Reversed(Ties(order, xs, k)) + [] == Reversed(Ties(order, xs, k));
    ReversedInvolution(Ties(order, xs, k));
  }

  /** What repeated `Take` yields is non-increasing: the maximum comes first. */
  lemma ReversedSortedIsNonIncreasing<T>(order: (T, T) -> int, s: seq<T>)
    requires Sorted(order, s)
    ensures forall i, j :: 0 <= i < j < |s| ==> order(Reversed(s)[j], Reversed(s)[i]) <= 0
  {
    forall i, j | 0 <= i < j < |s|
      ensures order(Reversed(s)[j], Reversed(s)[i]) <= 0
    {
      ReversedAt(s, i);
      ReversedAt(s, j);
    }
  }

  lemma {:induction false} RemoveFirstMultiset<T>(s: seq<T>, x: T)
    ensures multiset(RemoveFirst(s, x)) == multiset(s) - multiset{x}
  {
    if s != [] {
      assert s == [s[0]] + s[1..];
      if s[0] != x {
        RemoveFirstMultiset(s[1..], x);
      }
    }
  }

  /** Removing an element keeps the list non-decreasing. */
  lemma {:induction false} RemoveFirstSorted<T>(order: (T, T) -> int, s: seq<T>, x: T)
    requires Sorted(order, s)
    ensures Sorted(order, RemoveFirst(s, x))
  {
    if s != [] && s[0] != x {
      var t := RemoveFirst(s[1..], x);
      RemoveFirstSorted(order, s[1..], x);
      RemoveFirstMultiset(s[1..], x);
      forall j | 0 <= j < |t|
        ensures order(s[0], t[j]) <= 0
      {
        assert t[j] in multiset(t);
        assert t[j] in multiset(s[1..]);
        var m :| 0 <= m < |s[1..]| && s[1..][m] == t[j];
        assert s[1 + m] == t[j];
      }
      assert RemoveFirst(s, x) == [s[0]] + t;
    }
  }

  /** A three-way comparison on integers, for the scenarios below. */
  function IntOrder(a: int, b: int): int {
    if a < b then -1 else if a > b then 1 else 0
  }

  /** Adding 5, 1, 9, 3 and taking four times yields 9, 5, 3, 1. */
  lemma PriorityScenario()
    ensures Reversed(AddAll(IntOrder, [], [5, 1, 9, 3])) == [9, 5, 3, 1]
  {
    assert AddAll(IntOrder, [], [5, 1, 9, 3]) == AddAll(IntOrder, [5], [1, 9, 3]);
    assert Insert(IntOrder, [5], 1) == [1, 5];
    assert AddAll(IntOrder, [5], [1, 9, 3]) == AddAll(IntOrder, [1, 5], [9, 3]);
    assert Insert(IntOrder, [1, 5], 9) == [1, 5, 9];
    assert AddAll(IntOrder, [1, 5], [9, 3]) == AddAll(IntOrder, [1, 5, 9], [3]);
    assert Insert(IntOrder, [1, 5, 9], 3) == [1, 3, 5, 9];
    assert AddAll(IntOrder, [1, 5, 9], [3]) == [1, 3, 5, 9];
    assert [1, 3, 5, 9][..3] == [1, 3, 5];
    assert [1, 3, 5][..2] == [1, 3];
    assert [1, 3][..1] == [1];
    assert [1][..0] == [];
  }

  /** Orders pairs by their first component only, so equal keys are ties. */
  function KeyOrder(a: (int, char), b: (int, char)): int {
    IntOrder(a.0, b.0)
  }

  /** Two tied elements leave in the order they were added: (1, 'a') first. */
  lemma TieScenario()
    ensures Reversed(AddAll(KeyOrder, [], [(1, 'a'), (1, 'b')])) == [(1, 'a'), (1, 'b')]
  {
    assert AddAll(KeyOrder, [], [(1, 'a'), (1, 'b')]) == AddAll(KeyOrder, [(1, 'a')], [(1, 'b')]);
    assert Insert(KeyOrder, [(1, 'a')], (1, 'b')) == [(1, 'b'), (1, 'a')];
    assert AddAll(KeyOrder, [(1, 'a')], [(1, 'b')]) == [(1, 'b'), (1, 'a')];
    assert [(1, 'b'), (1, 'a')][..1] == [(1, 'b')];
    assert [(1, 'b')][..0] == [];
  }

  /** C#'s unary minus on a 32-bit `int`: it wraps, so the negation of
      `int.MinValue` is `int.MinValue` itself. */
  function NegateInt32(x: int): (r: int)
    requires -0x8000_0000 <= x < 0x8000_0000
    ensures -0x8000_0000 <= r < 0x8000_0000
    ensures x != -0x8000_0000 ==> r == -x
    ensures x == -0x8000_0000 ==> r == x
  {
    if x == -0x8000_0000 then x else -x
  }

  /** A legal three-way comparison on integers that answers "less" with `int.MinValue`. */
  function MinValueOrder(a: int, b: int): (c: int)
    ensures -0x8000_0000 <= c < 0x8000_0000
    ensures c < 0 <==> a < b
    ensures c > 0 <==> a > b
  {
    if a < b then -0x8000_0000 else if a > b then 1 else 0
  }

  /** The stored comparison the constructors compute from `MinValueOrder`, in
      32-bit arithmetic. */
  function StoredAsWritten(l: int, r: int): int {
    NegateInt32(MinValueOrder(l, r))
  }

  /** The stored comparison the corrected constructors compute: exact negation. */
  function StoredExactly(l: int, r: int): int {
    -MinValueOrder(l, r)
  }

  lemma MinValueOrderIsTotalPreorder()
    ensures TotalPreorder(MinValueOrder)
  {
    var order: (int, int) -> int := MinValueOrder;
    forall a, b, c | order(a, b) <= 0 && order(b, c) <= 0
      ensures order(a, c) <= 0
    {
    }
    forall a, b
      ensures order(a, b) < 0 <==> order(b, a) > 0
    {
    }
  }

  /** With `MinValueOrder`, the 32-bit negation does not flip "1 is less than 2".
      Adding 2 and then 1 with the stored comparison as written: the search over
      [2] sees the stored comparison of 1 against 2 negative and moves past 2, so
      the list becomes [2, 1], which is not non-decreasing, and `Take`, which pops
      the last element, hands out 1 before the larger 2. */
  lemma NegationAsWrittenKeepsSign()
    ensures TotalPreorder(MinValueOrder)
    ensures MinValueOrder(1, 2) < 0 && StoredAsWritten(1, 2) < 0
    ensures var s := AddWith(StoredAsWritten, AddWith(StoredAsWritten, [], 2), 1);
      && s == [2, 1]
      && !Sorted(MinValueOrder, s)
      && MinValueOrder(s[|s| - 1], s[0]) < 0
  {
    MinValueOrderIsTotalPreorder();
    var stored: (int, int) -> int := StoredAsWritten;
    assert AddWith(stored, [], 2) == [2];
    assert stored(1, 2) < 0;
    assert SearchFrom(stored, [2], 1, 1, 0) == 1;
    assert SearchFrom(stored, [2], 1, 0, 1) == 1;
    assert [2][..1] + [1] + [2][1..] == [2, 1];
    var s := [2, 1];
    assert MinValueOrder(s[0], s[1]) > 0;
  }

  /** With exact negation, the same two adds give the sorted [1, 2], so `Take`
      hands out 2 first. */
  lemma NegationExactlyFlipsSign()
    ensures StoredExactly(1, 2) > 0
    ensures var s := AddWith(StoredExactly, AddWith(StoredExactly, [], 2), 1);
      && s == [1, 2]
      && Sorted(MinValueOrder, s)
  {
    var stored: (int, int) -> int := StoredExactly;
    assert AddWith(stored, [], 2) == [2];
    assert stored(1, 2) > 0;
    assert SearchFrom(stored, [2], 1, 0, 0) == 0;
    assert SearchFrom(stored, [2], 1, 0, 1) == 0;
    assert [2][..0] + [1] + [2][0..] == [1, 2];
  }

  /** `PriorityQueue<T>`: the backing list `bag` and the stored comparison. */
  class PriorityQueue<T(==,!new)> {
    /** The backing `List<T>`, non-decreasing under `order`. */
    var bag: seq<T>
    /** The comparison as the C# constructors store it: the caller's, negated. */
    const comparison: (T, T) -> int
    /** The caller's comparison. */
    ghost const order: (T, T) -> int

    ghost predicate Valid()
      reads this
    {
      && TotalPreorder(order)
      && (forall l, r :: comparison(l, r) == -order(l, r))
      && Sorted(order, bag)
    }

    /** Stores the exact negation of `comparison`; the C# constructors negate in
        32-bit arithmetic, whose one difference is the finding `NegationAsWrittenKeepsSign`. */
    constructor(comparison: (T, T) -> int)
      requires TotalPreorder(comparison)
      ensures Valid()
      ensures order == comparison && bag == []
    {
      this.comparison := (l, r) => -comparison(l, r);
      order := comparison;
      bag := [];
    }

    function Count(): (n: nat)
      reads this
      ensures n == |multiset(bag)|
    {
      |bag|
    }

    /** Binary search for the first index whose element is not less than `item`. */
    method LowerBound(item: T) returns (first: nat)
      requires Valid()
      ensures first <= |bag|
      ensures forall k :: 0 <= k < first ==> order(bag[k], item) < 0
      ensures forall k :: first <= k < |bag| ==> order(bag[k], item) >= 0
    {
      var analyzingAmount := |bag|;
      first := 0;
      while analyzingAmount > 0
        invariant 0 <= analyzingAmount && first + analyzingAmount <= |bag|
        invariant forall k :: 0 <= k < first ==> order(bag[k], item) < 0
        invariant forall k :: first + analyzingAmount <= k < |bag| ==> order(bag[k], item) >= 0
      {
        var it := first;
        var step := analyzingAmount / 2;
        it := it + step;
        if comparison(item, bag[it]) < 0 {
          LessUpTo(order, bag, item, it);
          it := it + 1;
          first := it;
          analyzingAmount := analyzingAmount - (step + 1);
        } else {
          NotLessFrom(order, bag, item, it);
          analyzingAmount := step;
        }
      }
    }

    /** Inserts `item` before the first element not less than it. */
    method Add(item: T)
      requires Valid()
      modifies this
      ensures Valid()
      ensures bag == Insert(order, old(bag), item)
      ensures bag == AddWith(comparison, old(bag), item)
      ensures Count() == old(Count()) + 1
      ensures multiset(bag) == multiset(old(bag)) + multiset{item}
    {
      InsertSorted(order, bag, item);
      InsertMultiset(order, bag, item);
      AddWithExact(order, comparison, bag, item);
      if |bag| == 0 {
        bag := bag + [item];
        return;
      }
      var index := LowerBound(item);
      InsertAt(order, bag, item, index);
      bag := bag[..index] + [item] + bag[index..];
    }

    /** `Add` for each of `items`, in iteration order. */
    method AddRange(items: seq<T>)
      requires Valid()
      modifies this
      ensures Valid()
      ensures bag == AddAll(order, old(bag), items)
      ensures multiset(bag) == multiset(old(bag)) + multiset(items)
    {
      AddAllMultiset(order, bag, items);
      var i := 0;
      while i < |items|
        invariant i <= |items|
        invariant Valid()
        invariant AddAll(order, bag, items[i..]) == AddAll(order, old(bag), items)
      {
        assert items[i..][1..] == items[i + 1..];
        Add(items[i]);
        i := i + 1;
      }
      assert items[i..] == [];
    }

    method Clear()
      requires Valid()
      modifies this
      ensures Valid()
      ensures bag == [] && Count() == 0
    {
      bag := [];
    }

    /** Whether some stored element equals `item`. */
    function Contains(item: T): (b: bool)
      reads this
      ensures b <==> multiset(bag)[item] > 0
    {
      item in bag
    }

    /** The last element, a maximum; `None` on an empty queue. */
    function Peek(): (r: Option<T>)
      reads this
      requires Valid()
      ensures r.None? <==> bag == []
      ensures r.Some? ==> r.value in bag && forall e :: e in bag ==> order(e, r.value) <= 0
    {
      if |bag| == 0 then None else Some(bag[|bag| - 1])
    }

    /** Removes and returns the last element, a maximum; `None` and no change on an
        empty queue. */
    method Take() returns (r: Option<T>)
      requires Valid()
      modifies this
      ensures Valid()
      ensures r == old(Peek())
      ensures r.Some? ==> multiset(bag) == multiset(old(bag)) - multiset{r.value}
      ensures bag == if old(bag) == [] then old(bag) else old(bag)[..|old(bag)| - 1]
    {
      if |bag| == 0 {
        return None;
      }
      var result := bag[|bag| - 1];
      assert bag == bag[..|bag| - 1] + [result];
      bag := bag[..|bag| - 1];
      return Some(result);
    }

    /** Removes the first element equal to `item`; reports whether there was one. */
    method Remove(item: T) returns (removed: bool)
      requires Valid()
      modifies this
      ensures Valid()
      ensures removed == old(Contains(item))
      ensures bag == RemoveFirst(old(bag), item)
      ensures multiset(bag) == multiset(old(bag)) - multiset{item}
    {
      removed := item in bag;
      RemoveFirstSorted(order, bag, item);
      RemoveFirstMultiset(bag, item);
      bag := RemoveFirst(bag, item);
    }

    /** The snapshot that enumeration walks: the list reversed, maximum first. */
    function GetEnumerator(): (items: seq<T>)
      reads this
      requires Valid()
      ensures items == Reversed(bag)
      ensures multiset(items) == multiset(bag)
      ensures forall i, j :: 0 <= i < j < |items| ==> order(items[j], items[i]) <= 0
      ensures items != [] ==> Peek() == Some(items[0])
    {
      ReversedSortedIsNonIncreasing(order, bag);
      ReversedMultiset(bag);
      Reversed(bag)
    }

    /** Copies the reversed snapshot into `a` from `arrayIndex` on. */
    method CopyTo(a: array<T>, arrayIndex: nat)
      requires Valid()
      requires arrayIndex + |bag| <= a.Length
      modifies a
      ensures a[arrayIndex..arrayIndex + |bag|] == Reversed(bag)
      ensures a[..arrayIndex] == old(a[..arrayIndex])
      ensures a[arrayIndex + |bag|..] == old(a[arrayIndex + |bag|..])
    {
      var copy := Reversed(bag);
      var n := |copy|;
      forall k | arrayIndex <= k < arrayIndex + n {
        a[k] := copy[k - arrayIndex];
      }
      assert a[arrayIndex..arrayIndex + n] == copy;
    }
  }
}

/** Sorting by an integer key, as the standard library's `sort_by_key` family does. */
module Sorting {
  ghost predicate SortedByKey<T>(items: seq<T>, key: T -> int) {
    forall i, j | 0 <= i < j < |items| :: key(items[i]) <= key(items[j])
  }

  /** Puts an item after every item whose key is not larger. */
  function Insert<T>(sorted: seq<T>, item: T, key: T -> int): (r: seq<T>)
    ensures |r| == |sorted| + 1
  {
    if sorted == [] || key(sorted[|sorted| - 1]) <= key(item) then sorted + [item]
    else Insert(sorted[..|sorted| - 1], item, key) + [sorted[|sorted| - 1]]
  }

  /** Stable sort: items with equal keys keep their order. */
  function StableSort<T>(items: seq<T>, key: T -> int): (r: seq<T>)
    ensures |r| == |items|
  {
    if items == [] then [] else Insert(StableSort(items[..|items| - 1], key), items[|items| - 1], key)
  }

  lemma {:induction false} InsertPermutes<T>(sorted: seq<T>, item: T, key: T -> int)
    ensures multiset(Insert(sorted, item, key)) == multiset(sorted) + multiset{item}
  {
    if !(sorted == [] || key(sorted[|sorted| - 1]) <= key(item)) {
      var n := |sorted| - 1;
      InsertPermutes(sorted[..n], item, key);
      assert sorted == sorted[..n] + [sorted[n]];
    }
  }

  /** Insertion keeps the order and never places anything above an upper bound of all keys. */
  lemma {:induction false} InsertSorts<T>(sorted: seq<T>, item: T, key: T -> int, bound: int)
    requires SortedByKey(sorted, key) && key(item) <= bound
    requires sorted != [] ==> key(sorted[|sorted| - 1]) <= bound
    ensures var r := Insert(sorted, item, key); SortedByKey(r, key) && key(r[|r| - 1]) <= bound
  {
    if !(sorted == [] || key(sorted[|sorted| - 1]) <= key(item)) {
      var n := |sorted| - 1;
      InsertSorts(sorted[..n], item, key, key(sorted[n]));
      LastIsLargest(Insert(sorted[..n], item, key), sorted[n], key);
    }
  }

  lemma LastIsLargest<T>(sorted: seq<T>, last: T, key: T -> int)
    requires SortedByKey(sorted, key) && (sorted != [] ==> key(sorted[|sorted| - 1]) <= key(last))
    ensures SortedByKey(sorted + [last], key)
  {
    forall i | 0 <= i < |sorted| ensures key(sorted[i]) <= key(last) {
      assert i < |sorted| - 1 ==> key(sorted[i]) <= key(sorted[|sorted| - 1]);
    }
  }

  lemma NothingSorted<T>(key: T -> int)
    ensures SortedByKey([], key)
  {
  }

  lemma {:induction false} StableSortSorts<T>(items: seq<T>, key: T -> int)
    ensures SortedByKey(StableSort(items, key), key)
    ensures multiset(StableSort(items, key)) == multiset(items)
  {
    hide SortedByKey, Insert;
    if items == [] {
      NothingSorted(key);
    } else {
      var n := |items| - 1;
      StableSortSorts(items[..n], key);
      var earlier := StableSort(items[..n], key);
      InsertPermutes(earlier, items[n], key);
      var last := if earlier == [] then key(items[n]) else key(earlier[|earlier| - 1]);
      InsertSorts(earlier, items[n], key, if last < key(items[n]) then key(items[n]) else last);
      assert items == items[..n] + [items[n]];
    }
  }

  /** `sort_unstable_by_key`: callers learn only that the result is a sorted permutation. */
  method SortUnstable<T(==)>(items: seq<T>, key: T -> int) returns (sorted: seq<T>)
    ensures SortedByKey(sorted, key) && multiset(sorted) == multiset(items)
  {
    sorted := StableSort(items, key);
    StableSortSorts(items, key);
  }

  /** Two places that hold these two values, the same value twice included. */
  lemma {:induction false} TwoPlaces<T>(items: seq<T>, x: T, y: T)
    requires if x == y then multiset(items)[x] >= 2 else x in items && y in items
    ensures exists i, j :: 0 <= i < |items| && 0 <= j < |items| && i != j && items[i] == x && items[j] == y
  {
    if x != y {
      var i, j :| 0 <= i < |items| && 0 <= j < |items| && items[i] == x && items[j] == y;
    } else {
      var n := |items| - 1;
      assert items == items[..n] + [items[n]];
      if multiset(items[..n])[x] >= 2 {
        TwoPlaces(items[..n], x, x);
        var i, j :| 0 <= i < n && 0 <= j < n && i != j && items[..n][i] == x && items[..n][j] == x;
        assert items[i] == x && items[j] == x;
      } else {
        assert x in multiset(items[..n]);
        var i :| 0 <= i < n && items[..n][i] == x;
        assert items[i] == x && items[n] == x;
      }
    }
  }

  /** Any two places of a sequence have counterparts in every permutation of it. */
  lemma PairPermutes<T>(left: seq<T>, right: seq<T>, i: nat, j: nat)
    requires multiset(left) == multiset(right) && i < j < |left|
    ensures exists m, n :: 0 <= m < |right| && 0 <= n < |right| && m != n && right[m] == left[i] && right[n] == left[j]
  {
    var x, y := left[i], left[j];
    assert left == left[..j] + left[j..];
    assert x in left[..j] && y in left[j..];
    if x == y {
      assert multiset(left)[x] == multiset(left[..j])[x] + multiset(left[j..])[x] >= 2;
    } else {
      assert x in multiset(right) && y in multiset(right);
    }
    TwoPlaces(right, x, y);
  }

  /** Sorting sees keys only: shifting every key by one amount moves related items to the same places. */
  lemma {:induction false} SortRelates<T(!new)>(left: seq<T>, right: seq<T>, key: T -> int, related: (T, T) -> bool, c: int)
    requires |left| == |right| && forall i | 0 <= i < |left| :: related(left[i], right[i])
    requires forall x, y | related(x, y) :: key(y) == key(x) + c
    ensures forall i | 0 <= i < |left| :: related(StableSort(left, key)[i], StableSort(right, key)[i])
  {
    if left != [] {
      var n := |left| - 1;
      SortRelates(left[..n], right[..n], key, related, c);
      InsertRelates(StableSort(left[..n], key), StableSort(right[..n], key), left[n], right[n], key, related, c);
    }
  }

  lemma {:induction false} InsertRelates<T(!new)>(
    left: seq<T>, right: seq<T>, x: T, y: T, key: T -> int, related: (T, T) -> bool, c: int)
    requires |left| == |right| && related(x, y) && forall i | 0 <= i < |left| :: related(left[i], right[i])
    requires forall x, y | related(x, y) :: key(y) == key(x) + c
    ensures forall i | 0 <= i <= |left| :: related(Insert(left, x, key)[i], Insert(right, y, key)[i])
  {
    if left != [] && key(left[|left| - 1]) > key(x) {
      InsertRelates(left[..|left| - 1], right[..|left| - 1], x, y, key, related, c);
    }
  }

  /** Distinct keys leave no choice: a permutation sorts to the same sequence. */
  lemma {:induction false} SortedIsUnique<T>(left: seq<T>, right: seq<T>, key: T -> int)
    requires SortedByKey(left, key) && SortedByKey(right, key) && multiset(left) == multiset(right)
    requires forall i, j | 0 <= i < j < |left| :: key(left[i]) != key(left[j])
    ensures left == right
  {
    assert |left| == |multiset(left)| == |multiset(right)| == |right|;
    if left != [] {
      var n := |left| - 1;
      SameLast(left, right, key);
      SamePrefix(left, right);
      SortedIsUnique(left[..n], right[..n], key);
      assert left == left[..n] + [left[n]] && right == right[..n] + [right[n]];
    }
  }

  lemma SamePrefix<T>(left: seq<T>, right: seq<T>)
    requires multiset(left) == multiset(right) && left != [] && |left| == |right|
    requires left[|left| - 1] == right[|left| - 1]
    ensures multiset(left[..|left| - 1]) == multiset(right[..|left| - 1])
  {
    var n := |left| - 1;
    assert left == left[..n] + [left[n]] && right == right[..n] + [right[n]];
    assert multiset(left[..n]) == multiset(left) - multiset{left[n]};
    assert multiset(right[..n]) == multiset(right) - multiset{right[n]};
  }

  lemma SameLast<T>(left: seq<T>, right: seq<T>, key: T -> int)
    requires SortedByKey(left, key) && SortedByKey(right, key) && multiset(left) == multiset(right)
    requires forall i, j | 0 <= i < j < |left| :: key(left[i]) != key(left[j])
    requires left != [] && |left| == |right|
    ensures left[|left| - 1] == right[|left| - 1]
  {
    var n := |left| - 1;
    assert left[n] in multiset(right) && right[n] in multiset(left);
    var i :| 0 <= i <= n && right[i] == left[n];
    var j :| 0 <= j <= n && left[j] == right[n];
    assert key(right[i]) <= key(right[n]) && key(left[j]) <= key(left[n]);
  }

  /** A sorted sequence is its own stable sort. */
  lemma {:induction false} SortedStays<T>(items: seq<T>, key: T -> int)
    requires SortedByKey(items, key)
    ensures StableSort(items, key) == items
  {
    if items != [] {
      var n := |items| - 1;
      SortedStays(items[..n], key);
      assert items == items[..n] + [items[n]];
      assert n > 0 ==> key(items[n - 1]) <= key(items[n]);
    }
  }

  function RemoveAt<T>(items: seq<T>, i: nat): (r: seq<T>)
    requires i < |items|
    ensures |r| == |items| - 1 && forall k | 0 <= k < |r| :: r[k] == items[if k < i then k else k + 1]
  {
    items[..i] + items[i + 1..]
  }

  lemma RemovedOne<T>(items: seq<T>, i: nat, key: T -> int)
    requires i < |items|
    ensures multiset(RemoveAt(items, i)) == multiset(items) - multiset{items[i]}
    ensures SortedByKey(items, key) ==> SortedByKey(RemoveAt(items, i), key)
  {
    assert items == items[..i] + [items[i]] + items[i + 1..];
  }

  /** Two places taken out, the higher one first. */
  lemma RemovedTwo<T>(items: seq<T>, low: nat, high: nat, key: T -> int)
    requires low < high < |items|
    ensures multiset(items) == multiset{items[low], items[high]} + multiset(RemoveAt(RemoveAt(items, high), low))
    ensures SortedByKey(items, key) ==> SortedByKey(RemoveAt(RemoveAt(items, high), low), key)
  {
    hide SortedByKey, RemoveAt;
    var once := RemoveAt(items, high);
    RemovedOne(items, high, key);
    RemovedOne(once, low, key);
    assert items[high] in multiset(items);
    assert once[low] == items[low] && once[low] in multiset(once);
    PutBack(multiset(items), multiset(once), items[high]);
    PutBack(multiset(once), multiset(RemoveAt(once, low)), items[low]);
    assert multiset{items[low], items[high]} == multiset{items[low]} + multiset{items[high]};
  }

  lemma PutBack<T>(whole: multiset<T>, rest: multiset<T>, x: T)
    requires x in whole && rest == whole - multiset{x}
    ensures whole == rest + multiset{x}
  {
  }
}

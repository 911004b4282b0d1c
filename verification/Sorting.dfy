/** The stable sort by an integer key, and where it puts each item. */
module Sorting {

  /** Inserts before the first item whose key is not smaller. */
  function Insert<T>(key: T -> int, x: T, items: seq<T>): (out: seq<T>)
    ensures |out| == |items| + 1
  {
    if items == [] || key(x) <= key(items[0]) then [x] + items else [items[0]] + Insert(key, x, items[1..])
  }

  function Sort<T>(key: T -> int, items: seq<T>): (out: seq<T>)
    ensures |out| == |items|
  {
    if items == [] then [] else Insert(key, items[0], Sort(key, items[1..]))
  }

  ghost predicate Ascending<T>(key: T -> int, items: seq<T>) {
    forall i, j :: 0 <= i < j < |items| ==> key(items[i]) <= key(items[j])
  }

  /** How many items have a smaller key. */
  function Smaller<T>(key: T -> int, items: seq<T>, k: int): nat {
    if items == [] then 0 else (if key(items[0]) < k then 1 else 0) + Smaller(key, items[1..], k)
  }

  /** The items with a given key, in order. */
  function WithKey<T>(key: T -> int, items: seq<T>, k: int): seq<T> {
    if items == [] then [] else (if key(items[0]) == k then [items[0]] else []) + WithKey(key, items[1..], k)
  }

  /** How many items come before the i-th: those with a smaller key, and earlier ones with the same. */
  function Ahead<T>(key: T -> int, items: seq<T>, i: nat): nat
    requires i < |items|
    decreases i
  {
    if i == 0 then Smaller(key, items[1..], key(items[0]))
    else (if key(items[0]) <= key(items[i]) then 1 else 0) + Ahead(key, items[1..], i - 1)
  }

  // ----- Counting -----

  lemma {:induction false} NoneSmaller<T>(key: T -> int, items: seq<T>, k: int)
    requires forall i :: 0 <= i < |items| ==> key(items[i]) >= k
    ensures Smaller(key, items, k) == 0
    decreases |items|
  {
    if items != [] {
      NoneSmaller(key, items[1..], k);
    }
  }

  lemma {:induction false} AllSmaller<T>(key: T -> int, items: seq<T>, k: int)
    requires forall i :: 0 <= i < |items| ==> key(items[i]) < k
    ensures Smaller(key, items, k) == |items|
    decreases |items|
  {
    if items != [] {
      AllSmaller(key, items[1..], k);
    }
  }

  lemma {:induction false} SmallerConcat<T>(key: T -> int, a: seq<T>, b: seq<T>, k: int)
    ensures Smaller(key, a + b, k) == Smaller(key, a, k) + Smaller(key, b, k)
    decreases |a|
  {
    if a == [] {
      assert a + b == b;
    } else {
      assert (a + b)[1..] == a[1..] + b;
      SmallerConcat(key, a[1..], b, k);
    }
  }

  lemma {:induction false} SmallerBetween<T>(key: T -> int, a: seq<T>, x: T, b: seq<T>, k: int)
    ensures Smaller(key, a + [x] + b, k) == Smaller(key, [x], k) + Smaller(key, a + b, k)
    ensures multiset(a + [x] + b) == multiset([x]) + multiset(a + b)
  {
    SmallerConcat(key, a + [x], b, k);
    SmallerConcat(key, a, [x], k);
    SmallerConcat(key, a, b, k);
  }

  // ----- Insertion -----

  /** Insertion goes in after exactly the items with a smaller key. */
  lemma {:induction false} InsertAt<T>(key: T -> int, x: T, items: seq<T>)
    requires Ascending(key, items)
    ensures var p := Smaller(key, items, key(x));
            && p <= |items| && Insert(key, x, items) == items[..p] + [x] + items[p..]
            && forall i :: 0 <= i < |items| ==> (i < p <==> key(items[i]) < key(x))
    decreases |items|
  {
    if items == [] || key(x) <= key(items[0]) {
      NoneSmaller(key, items, key(x));
    } else {
      InsertAt(key, x, items[1..]);
      var p := Smaller(key, items[1..], key(x));
      assert items[..p + 1] == [items[0]] + items[1..][..p];
      assert items[p + 1..] == items[1..][p..];
    }
  }

  lemma {:induction false} AscendingBetween<T>(key: T -> int, items: seq<T>, x: T, p: nat)
    requires Ascending(key, items) && p <= |items|
    requires forall i :: 0 <= i < |items| ==> (i < p <==> key(items[i]) < key(x))
    ensures Ascending(key, items[..p] + [x] + items[p..])
  {
  }

  lemma {:induction false} InsertKeeps<T>(key: T -> int, x: T, items: seq<T>, k: int)
    requires Ascending(key, items)
    ensures Ascending(key, Insert(key, x, items))
    ensures Smaller(key, Insert(key, x, items), k) == Smaller(key, [x], k) + Smaller(key, items, k)
    ensures multiset(Insert(key, x, items)) == multiset([x]) + multiset(items)
  {
    InsertAt(key, x, items);
    var p := Smaller(key, items, key(x));
    assert items == items[..p] + items[p..];
    SmallerBetween(key, items[..p], x, items[p..], k);
    AscendingBetween(key, items, x, p);
  }

  lemma {:induction false} InsertIsStable<T>(key: T -> int, x: T, items: seq<T>, k: int)
    ensures WithKey(key, Insert(key, x, items), k) == (if key(x) == k then [x] else []) + WithKey(key, items, k)
    decreases |items|
  {
    if items == [] || key(x) <= key(items[0]) {
      assert ([x] + items)[1..] == items;
    } else {
      InsertIsStable(key, x, items[1..], k);
      var rest, tail := Insert(key, x, items[1..]), WithKey(key, items[1..], k);
      assert ([items[0]] + rest)[1..] == rest;
      assert [] + WithKey(key, rest, k) == WithKey(key, rest, k) && [] + tail == tail;
      assert [] + WithKey(key, items, k) == WithKey(key, items, k);
    }
  }

  // ----- Sorting -----

  /** The result is ascending and a permutation. */
  lemma {:induction false} SortIsSound<T>(key: T -> int, items: seq<T>, k: int)
    ensures Ascending(key, Sort(key, items)) && multiset(Sort(key, items)) == multiset(items)
    ensures Smaller(key, Sort(key, items), k) == Smaller(key, items, k)
    decreases |items|
  {
    if items != [] {
      SortIsSound(key, items[1..], k);
      InsertKeeps(key, items[0], Sort(key, items[1..]), k);
      assert items == [items[0]] + items[1..];
      SmallerConcat(key, [items[0]], items[1..], k);
    }
  }

  /** Items with equal keys keep their order. */
  lemma {:induction false} SortIsStable<T>(key: T -> int, items: seq<T>, k: int)
    ensures WithKey(key, Sort(key, items), k) == WithKey(key, items, k)
    decreases |items|
  {
    if items != [] {
      SortIsStable(key, items[1..], k);
      InsertIsStable(key, items[0], Sort(key, items[1..]), k);
    }
  }

  /** An item's place in the result is the number of items ahead of it. */
  lemma {:induction false} PlaceIsAhead<T>(key: T -> int, items: seq<T>, i: nat)
    requires i < |items|
    ensures Ahead(key, items, i) < |items| && Sort(key, items)[Ahead(key, items, i)] == items[i]
    decreases i
  {
    var first, sorted := items[0], Sort(key, items[1..]);
    SortIsSound(key, items[1..], key(first));
    InsertAt(key, first, sorted);
    if i > 0 {
      PlaceIsAhead(key, items[1..], i - 1);
    }
  }

  lemma {:induction false} EveryPlaceIsTaken<T>(key: T -> int, items: seq<T>, place: nat) returns (j: nat)
    requires place < |items|
    ensures j < |items| && Ahead(key, items, j) == place
    decreases |items|
  {
    var first, sorted := items[0], Sort(key, items[1..]);
    SortIsSound(key, items[1..], key(first));
    InsertAt(key, first, sorted);
    var p := Smaller(key, sorted, key(first));
    if place == p {
      j := 0;
    } else {
      var i := EveryPlaceIsTaken(key, items[1..], if place < p then place else place - 1);
      PlaceIsAhead(key, items[1..], i);
      j := i + 1;
    }
  }
}

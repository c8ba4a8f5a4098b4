/** `sorted(items, key=...)`: the stable sort both ZIP checks order local records with. */
module StableSort {

  function SortBy<T>(items: seq<T>, key: T -> nat): (sorted: seq<T>)
    ensures |sorted| == |items|
  {
    if items == [] then [] else InsertBy(SortBy(items[..|items| - 1], key), items[|items| - 1], key)
  }

  function InsertBy<T>(sorted: seq<T>, item: T, key: T -> nat): (r: seq<T>)
    ensures |r| == |sorted| + 1
  {
    if sorted == [] || key(sorted[|sorted| - 1]) <= key(item) then sorted + [item]
    else InsertBy(sorted[..|sorted| - 1], item, key) + [sorted[|sorted| - 1]]
  }

  lemma {:induction false} InsertIsPermutation<T>(sorted: seq<T>, item: T, key: T -> nat)
    ensures multiset(InsertBy(sorted, item, key)) == multiset(sorted) + multiset{item}
  {
    if sorted != [] && key(sorted[|sorted| - 1]) > key(item) {
      InsertIsPermutation(sorted[..|sorted| - 1], item, key);
      assert sorted == sorted[..|sorted| - 1] + [sorted[|sorted| - 1]];
    }
  }

  lemma {:induction false} SortIsPermutation<T>(items: seq<T>, key: T -> nat)
    ensures multiset(SortBy(items, key)) == multiset(items)
  {
    if items != [] {
      var front, last := items[..|items| - 1], items[|items| - 1];
      SortIsPermutation(front, key);
      InsertIsPermutation(SortBy(front, key), last, key);
      assert items == front + [last];
    }
  }

  lemma SortKeepsMembers<T>(items: seq<T>, key: T -> nat)
    ensures forall x :: x in SortBy(items, key) <==> x in items
  {
    SortIsPermutation(items, key);
    forall x ensures x in SortBy(items, key) <==> x in items {
      assert x in items <==> x in multiset(items);
      assert x in SortBy(items, key) <==> x in multiset(SortBy(items, key));
    }
  }

  ghost predicate Ordered<T>(s: seq<T>, key: T -> nat) {
    forall i, j :: 0 <= i < j < |s| ==> key(s[i]) <= key(s[j])
  }

  lemma {:induction false} InsertIsOrdered<T>(sorted: seq<T>, item: T, key: T -> nat)
    requires Ordered(sorted, key)
    ensures Ordered(InsertBy(sorted, item, key), key)
  {
    if sorted != [] && key(sorted[|sorted| - 1]) > key(item) {
      var front, last := sorted[..|sorted| - 1], sorted[|sorted| - 1];
      InsertIsOrdered(front, item, key);
      InsertIsPermutation(front, item, key);
      var r := InsertBy(front, item, key);
      forall i | 0 <= i < |r| ensures key(r[i]) <= key(last) {
        assert r[i] in multiset(r);
        assert r[i] in front || r[i] == item;
      }
    }
  }

  /** The result is ordered by key. */
  lemma {:induction false} SortIsOrdered<T>(items: seq<T>, key: T -> nat)
    ensures Ordered(SortBy(items, key), key)
  {
    if items != [] {
      SortIsOrdered(items[..|items| - 1], key);
      InsertIsOrdered(SortBy(items[..|items| - 1], key), items[|items| - 1], key);
    }
  }
}

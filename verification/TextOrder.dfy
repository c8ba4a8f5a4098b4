/** Python's order on texts, by code points, and `sorted` on it. */
module TextOrder {
  import opened Utf8

  predicate LexLess(s: Text, t: Text) {
    t != [] && (s == [] || s[0] < t[0] || (s[0] == t[0] && LexLess(s[1..], t[1..])))
  }

  lemma {:induction false} Asymmetric(s: Text, t: Text)
    requires LexLess(s, t)
    ensures !LexLess(t, s)
  {
    if s != [] && s[0] == t[0] {
      Asymmetric(s[1..], t[1..]);
    }
  }

  /** The order is linear: what lies below `t` lies below everything that is not below `t`. */
  lemma {:induction false} Linear(s: Text, t: Text, u: Text)
    requires LexLess(s, t) && !LexLess(u, t)
    ensures LexLess(s, u)
  {
    if s != [] && u != [] && s[0] == t[0] == u[0] {
      Linear(s[1..], t[1..], u[1..]);
    }
  }

  ghost predicate IsSorted(texts: seq<Text>) {
    forall i, j :: 0 <= i < j < |texts| ==> !LexLess(texts[j], texts[i])
  }

  function Insert(sorted: seq<Text>, t: Text): seq<Text> {
    if sorted == [] || !LexLess(t, sorted[|sorted| - 1]) then sorted + [t]
    else Insert(sorted[..|sorted| - 1], t) + [sorted[|sorted| - 1]]
  }

  /** `sorted(texts)`. */
  function Sorted(texts: seq<Text>): seq<Text> {
    if texts == [] then [] else Insert(Sorted(texts[..|texts| - 1]), texts[|texts| - 1])
  }

  lemma {:induction false} InsertAdds(sorted: seq<Text>, t: Text)
    ensures multiset(Insert(sorted, t)) == multiset(sorted) + multiset{t}
  {
    if sorted != [] && LexLess(t, sorted[|sorted| - 1]) {
      InsertAdds(sorted[..|sorted| - 1], t);
      assert sorted == sorted[..|sorted| - 1] + [sorted[|sorted| - 1]];
    }
  }

  lemma {:induction false} SortedIsPermutation(texts: seq<Text>)
    ensures multiset(Sorted(texts)) == multiset(texts)
  {
    if texts != [] {
      var front, last := texts[..|texts| - 1], texts[|texts| - 1];
      SortedIsPermutation(front);
      InsertAdds(Sorted(front), last);
      assert texts == front + [last];
    }
  }

  lemma SortedHasSame(texts: seq<Text>)
    ensures forall t :: t in Sorted(texts) <==> t in texts
  {
    SortedIsPermutation(texts);
    forall t ensures t in Sorted(texts) <==> t in texts {
      assert t in texts <==> t in multiset(texts);
      assert t in Sorted(texts) <==> t in multiset(Sorted(texts));
    }
  }

  lemma {:induction false} InsertKeepsSorted(sorted: seq<Text>, t: Text)
    requires IsSorted(sorted)
    ensures IsSorted(Insert(sorted, t))
  {
    if sorted == [] {
    } else {
      var front, last := sorted[..|sorted| - 1], sorted[|sorted| - 1];
      if LexLess(t, last) {
        InsertKeepsSorted(front, t);
        InsertAdds(front, t);
        Asymmetric(t, last);
        var r := Insert(front, t);
        forall i | 0 <= i < |r| ensures !LexLess(last, r[i]) {
          assert r[i] in multiset(r);
          assert r[i] in front || r[i] == t;
        }
      } else {
        forall i | 0 <= i < |sorted| ensures !LexLess(t, sorted[i]) {
          if LexLess(t, sorted[i]) {
            Linear(t, sorted[i], last);
          }
        }
      }
    }
  }

  /** `sorted` sorts. */
  lemma {:induction false} SortedIsSorted(texts: seq<Text>)
    ensures IsSorted(Sorted(texts))
  {
    if texts != [] {
      SortedIsSorted(texts[..|texts| - 1]);
      InsertKeepsSorted(Sorted(texts[..|texts| - 1]), texts[|texts| - 1]);
    }
  }

  /** It leaves a sorted list alone, so sorting twice is sorting once. */
  lemma {:induction false} SortedAgain(texts: seq<Text>)
    requires IsSorted(texts)
    ensures Sorted(texts) == texts
  {
    hide LexLess;
    if texts != [] {
      var front, last := texts[..|texts| - 1], texts[|texts| - 1];
      SortedAgain(front);
      assert texts == front + [last];
      assert front != [] ==> !LexLess(last, front[|front| - 1]);
      assert Insert(front, last) == front + [last];
    }
  }
}

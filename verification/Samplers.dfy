/** The bounded diagnostic samples of bundle.py, and what it means when one comes back empty. */
module Samplers {
  import opened Utf8
  import opened TextOrder

  const SAMPLE_LIMIT: nat := 20

  function FirstOf<T>(values: seq<T>, maximum: nat): (first: seq<T>)
    ensures |values| <= maximum ==> first == values
  {
    if |values| <= maximum then values else values[..maximum]
  }

  /** `_bounded_diagnostic_sample`. */
  method BoundedDiagnosticSample<T>(values: seq<T>, maximum: nat) returns (sample: seq<T>)
    requires 1 <= maximum
    ensures sample == FirstOf(values, maximum)
  {
    sample := [];
    for i := 0 to |values|
      invariant sample == values[..i] && i < maximum
    {
      sample := sample + [values[i]];
      if |sample| == maximum {
        return;
      }
    }
  }

  /** The candidates that are not present, each once, in the order they first appear. */
  function Absent(candidates: seq<Text>, present: set<Text>): seq<Text> {
    if candidates == [] then []
    else
      var front, c := Absent(candidates[..|candidates| - 1], present), candidates[|candidates| - 1];
      if c in present || c in front then front else front + [c]
  }

  lemma {:induction false} AbsentIsDifference(candidates: seq<Text>, present: set<Text>)
    ensures forall t :: t in Absent(candidates, present) <==> t in candidates && t !in present
    ensures forall i, j :: 0 <= i < j < |Absent(candidates, present)| ==>
      Absent(candidates, present)[i] != Absent(candidates, present)[j]
  {
    if candidates != [] {
      var front, c := candidates[..|candidates| - 1], candidates[|candidates| - 1];
      AbsentIsDifference(front, present);
      assert candidates == front + [c];
    }
  }

  lemma AbsentNext(candidates: seq<Text>, present: set<Text>, i: nat)
    requires i < |candidates|
    ensures var front, c := Absent(candidates[..i], present), candidates[i];
      Absent(candidates[..i + 1], present) == if c in present || c in front then front else front + [c]
  {
    assert candidates[..i + 1][..i] == candidates[..i];
  }

  lemma {:induction false} AbsentGrows(candidates: seq<Text>, present: set<Text>, i: nat)
    requires i <= |candidates|
    ensures Absent(candidates[..i], present) <= Absent(candidates, present)
    decreases |candidates| - i
  {
    if i < |candidates| {
      AbsentNext(candidates, present, i);
      AbsentGrows(candidates, present, i + 1);
    } else {
      assert candidates[..i] == candidates;
    }
  }

  /** `_bounded_absent_text_sample`: a sample of a set difference that is never built. */
  method BoundedAbsentTextSample(candidates: seq<Text>, present: set<Text>, maximum: nat) returns (sample: seq<Text>)
    requires 1 <= maximum
    ensures sample == FirstOf(Absent(candidates, present), maximum)
  {
    hide Absent;
    sample := [];
    var sampled: set<Text> := {};
    NoneAbsent(candidates, present);
    for i := 0 to |candidates|
      invariant sample == Absent(candidates[..i], present) && |sample| < maximum
      invariant forall t :: t in sampled <==> t in sample
    {
      AbsentNext(candidates, present, i);
      if candidates[i] in present || candidates[i] in sampled {
        continue;
      }
      sampled := sampled + {candidates[i]};
      sample := sample + [candidates[i]];
      if |sample| == maximum {
        AbsentGrows(candidates, present, i + 1);
        return;
      }
    }
    assert candidates[..|candidates|] == candidates;
  }

  lemma NoneAbsent(candidates: seq<Text>, present: set<Text>)
    ensures Absent(candidates[..0], present) == []
  {
  }

  // ----- repeated names -----

  ghost predicate AllDistinct<T>(s: seq<T>) {
    forall i, j :: 0 <= i < j < |s| ==> s[i] != s[j]
  }

  /** `Counter(names)`: each name once, in the order of first appearance, with its count. */
  method CountNames(names: seq<Text>) returns (order: seq<Text>, counts: map<Text, nat>)
    ensures order == Absent(names, {})
    ensures forall t :: t in counts <==> t in names
    ensures forall t :: t in counts ==> counts[t] == multiset(names)[t]
  {
    hide Absent;
    order, counts := [], map[];
    NoneAbsent(names, {});
    for i := 0 to |names|
      invariant order == Absent(names[..i], {})
      invariant forall t :: t in counts <==> t in names[..i]
      invariant forall t :: t in counts ==> t in order && counts[t] == multiset(names[..i])[t]
    {
      AbsentNext(names, {}, i);
      AbsentIsDifference(names[..i], {});
      assert names[..i + 1] == names[..i] + [names[i]];
      if names[i] in counts {
        counts := counts[names[i] := counts[names[i]] + 1];
      } else {
        order := order + [names[i]];
        counts := counts[names[i] := 1];
      }
    }
    assert names[..|names|] == names;
  }

  /** The names that occur more than once, each once. */
  function Repeated(order: seq<Text>, names: multiset<Text>): seq<Text> {
    if order == [] then []
    else Repeated(order[..|order| - 1], names) + if names[order[|order| - 1]] > 1 then [order[|order| - 1]] else []
  }

  lemma {:induction false} RepeatedAre(order: seq<Text>, names: multiset<Text>)
    ensures forall t :: t in Repeated(order, names) <==> t in order && names[t] > 1
  {
    if order != [] {
      RepeatedAre(order[..|order| - 1], names);
      assert order == order[..|order| - 1] + [order[|order| - 1]];
    }
  }

  lemma {:induction false} DistinctMeansOnce(s: seq<Text>)
    ensures AllDistinct(s) <==> forall t :: t in s ==> multiset(s)[t] == 1
  {
    if s != [] {
      var n := |s| - 1;
      assert s == s[..n] + [s[n]];
      DistinctMeansOnce(s[..n]);
      if AllDistinct(s) {
        assert AllDistinct(s[..n]);
        assert s[n] !in s[..n];
        assert s[n] !in multiset(s[..n]);
      }
      if forall t :: t in s ==> multiset(s)[t] == 1 {
        forall t | t in s[..n] ensures multiset(s[..n])[t] == 1 {
          assert t in multiset(s[..n]) && t in s;
        }
        assert s[n] in s && s[n] !in multiset(s[..n]);
        assert AllDistinct(s);
      }
    }
  }

  /** A sample of the names that occur more than once. */
  method RepeatedSample(names: seq<Text>) returns (sample: seq<Text>)
    ensures sample == FirstOf(Repeated(Absent(names, {}), multiset(names)), SAMPLE_LIMIT)
  {
    hide Absent, Repeated;
    var order, counts := CountNames(names);
    AbsentIsDifference(names, {});
    var repeated: seq<Text> := [];
    RepeatedNext(order, multiset(names), 0);
    for i := 0 to |order|
      invariant repeated == Repeated(order[..i], multiset(names))
    {
      RepeatedNext(order, multiset(names), i);
      assert order[i] in order;
      if counts[order[i]] > 1 {
        repeated := repeated + [order[i]];
      }
    }
    assert order[..|order|] == order;
    sample := BoundedDiagnosticSample(repeated, SAMPLE_LIMIT);
  }

  lemma RepeatedNext(order: seq<Text>, names: multiset<Text>, i: nat)
    requires i <= |order|
    ensures i == 0 ==> Repeated(order[..i], names) == []
    ensures i < |order| ==>
      Repeated(order[..i + 1], names) == Repeated(order[..i], names) + if names[order[i]] > 1 then [order[i]] else []
  {
    if i < |order| {
      assert order[..i + 1][..i] == order[..i];
    }
  }

  /** No sample of repeated names means that no two names are equal. */
  lemma NoneRepeated(names: seq<Text>)
    ensures FirstOf(Repeated(Absent(names, {}), multiset(names)), SAMPLE_LIMIT) == [] <==> AllDistinct(names)
  {
    hide Absent, Repeated;
    var repeated := Repeated(Absent(names, {}), multiset(names));
    AbsentIsDifference(names, {});
    RepeatedAre(Absent(names, {}), multiset(names));
    DistinctMeansOnce(names);
    if repeated != [] {
      assert repeated[0] in repeated;
      assert repeated[0] in names && multiset(names)[repeated[0]] > 1;
    } else {
      forall t | t in names ensures multiset(names)[t] == 1 {
        assert t in multiset(names);
        assert t !in repeated;
      }
    }
  }

  // ----- names that fold together -----

  function WithKey(names: seq<Text>, key: Text -> Text, k: Text): seq<Text> {
    if names == [] then []
    else
      var front, last := WithKey(names[..|names| - 1], key, k), names[|names| - 1];
      if key(last) == k then front + [last] else front
  }

  /** The keys of more than one name, in the order in which the second name appears. */
  function CollisionKeys(names: seq<Text>, key: Text -> Text): seq<Text> {
    if names == [] then []
    else
      var front, k := names[..|names| - 1], key(names[|names| - 1]);
      if |WithKey(front, key, k)| == 1 then CollisionKeys(front, key) + [k] else CollisionKeys(front, key)
  }

  lemma {:induction false} CollidingKeys(names: seq<Text>, key: Text -> Text)
    ensures forall k :: k in CollisionKeys(names, key) <==> |WithKey(names, key, k)| >= 2
    ensures AllDistinct(CollisionKeys(names, key))
  {
    if names != [] {
      CollidingKeys(names[..|names| - 1], key);
    }
  }

  lemma {:induction false} WithKeyAre(names: seq<Text>, key: Text -> Text, k: Text)
    ensures forall t :: t in WithKey(names, key, k) <==> t in names && key(t) == k
  {
    if names != [] {
      WithKeyAre(names[..|names| - 1], key, k);
      assert names == names[..|names| - 1] + [names[|names| - 1]];
    }
  }

  lemma {:induction false} TwoUnderKey(names: seq<Text>, key: Text -> Text, k: Text)
    ensures |WithKey(names, key, k)| >= 2 <==>
      exists i, j :: 0 <= i < j < |names| && key(names[i]) == key(names[j]) == k
  {
    if names != [] {
      var n := |names| - 1;
      var front := names[..n];
      TwoUnderKey(front, key, k);
      WithKeyAre(front, key, k);
      if |WithKey(front, key, k)| >= 2 {
        var i, j :| 0 <= i < j < n && key(front[i]) == key(front[j]) == k;
        assert key(names[i]) == key(names[j]) == k;
      } else if |WithKey(names, key, k)| >= 2 {
        assert WithKey(front, key, k)[0] in front;
        var i :| 0 <= i < n && front[i] == WithKey(front, key, k)[0];
        assert front[i] in WithKey(front, key, k) && key(names[i]) == key(names[n]) == k;
      }
    }
  }

  /** No collision groups means that no two names, whether equal or not, fold together. */
  lemma NoneCollide(names: seq<Text>, key: Text -> Text)
    ensures CollisionKeys(names, key) == [] <==>
      forall i, j :: 0 <= i < j < |names| ==> key(names[i]) != key(names[j])
  {
    hide CollisionKeys, WithKey;
    CollidingKeys(names, key);
    if CollisionKeys(names, key) != [] {
      var k := CollisionKeys(names, key)[0];
      assert k in CollisionKeys(names, key);
      TwoUnderKey(names, key, k);
    }
    if i, j :| 0 <= i < j < |names| && key(names[i]) == key(names[j]) {
      TwoUnderKey(names, key, key(names[i]));
      assert key(names[i]) in CollisionKeys(names, key);
    }
  }

  /** What a group holds: the first names under its key. */
  ghost predicate IsGroup(group: seq<Text>, names: seq<Text>, key: Text -> Text, k: Text, perGroup: nat) {
    group == FirstOf(WithKey(names, key, k), perGroup)
  }

  ghost predicate AreGroups(groups: seq<seq<Text>>, names: seq<Text>, key: Text -> Text, perGroup: nat) {
    var keys := CollisionKeys(names, key);
    |groups| == |keys| && forall g :: 0 <= g < |groups| ==> IsGroup(groups[g], names, key, keys[g], perGroup)
  }

  /** The two dictionaries of the scan: the first name under each key, and the group of each colliding key. */
  ghost predicate AreIndexed(
    seen: seq<Text>, key: Text -> Text, firstByKey: map<Text, Text>, groupByKey: map<Text, nat>)
  {
    var keys := CollisionKeys(seen, key);
    && (forall k :: k in firstByKey <==> WithKey(seen, key, k) != [])
    && (forall k :: k in firstByKey ==> WithKey(seen, key, k)[0] == firstByKey[k])
    && (forall k :: k in groupByKey <==> |WithKey(seen, key, k)| >= 2)
    && (forall k :: k in groupByKey ==> groupByKey[k] < |keys| && keys[groupByKey[k]] == k)
  }

  ghost predicate Scanned(
    seen: seq<Text>, key: Text -> Text, perGroup: nat,
    firstByKey: map<Text, Text>, groupByKey: map<Text, nat>, groups: seq<seq<Text>>)
  {
    AreGroups(groups, seen, key, perGroup) && AreIndexed(seen, key, firstByKey, groupByKey)
  }

  lemma ScanStarts(key: Text -> Text, perGroup: nat)
    ensures Scanned([], key, perGroup, map[], map[], [])
  {
  }

  lemma OneMoreUnder(seen: seq<Text>, key: Text -> Text, name: Text, k: Text)
    ensures WithKey(seen + [name], key, k) ==
      if key(name) == k then WithKey(seen, key, k) + [name] else WithKey(seen, key, k)
  {
    assert (seen + [name])[..|seen|] == seen;
  }

  lemma OneMoreKey(seen: seq<Text>, key: Text -> Text, name: Text)
    ensures CollisionKeys(seen + [name], key) ==
      CollisionKeys(seen, key) + if |WithKey(seen, key, key(name))| == 1 then [key(name)] else []
  {
    assert (seen + [name])[..|seen|] == seen;
  }

  /** What one more name does to a group. */
  lemma OneMoreInGroup(group: seq<Text>, seen: seq<Text>, key: Text -> Text, k: Text, perGroup: nat, name: Text)
    requires IsGroup(group, seen, key, k, perGroup)
    ensures IsGroup(
      if key(name) == k && |group| < perGroup then group + [name] else group, seen + [name], key, k, perGroup)
  {
    hide WithKey;
    OneMoreUnder(seen, key, name, k);
  }

  lemma GroupsStay(
    seen: seq<Text>, key: Text -> Text, perGroup: nat, name: Text, groups: seq<seq<Text>>, g: nat)
    requires AreGroups(groups, seen, key, perGroup) && g < |groups|
    ensures g < |CollisionKeys(seen, key)|
    ensures IsGroup(
      if key(name) == CollisionKeys(seen, key)[g] && |groups[g]| < perGroup then groups[g] + [name] else groups[g],
      seen + [name], key, CollisionKeys(seen, key)[g], perGroup)
  {
    hide CollisionKeys, IsGroup;
    OneMoreInGroup(groups[g], seen, key, CollisionKeys(seen, key)[g], perGroup, name);
  }

  lemma FirstUnderKey(
    seen: seq<Text>, key: Text -> Text, perGroup: nat, name: Text,
    firstByKey: map<Text, Text>, groupByKey: map<Text, nat>, groups: seq<seq<Text>>)
    requires Scanned(seen, key, perGroup, firstByKey, groupByKey, groups) && key(name) !in firstByKey
    ensures Scanned(seen + [name], key, perGroup, firstByKey[key(name) := name], groupByKey, groups)
  {
    hide WithKey, CollisionKeys, IsGroup;
    OneMoreKey(seen, key, name);
    forall k {
      OneMoreUnder(seen, key, name, k);
    }
    CollidingKeys(seen, key);
    var keys := CollisionKeys(seen, key);
    forall g | 0 <= g < |groups| ensures IsGroup(groups[g], seen + [name], key, keys[g], perGroup) {
      assert keys[g] in keys;
      GroupsStay(seen, key, perGroup, name, groups, g);
    }
  }

  lemma SecondUnderKey(
    seen: seq<Text>, key: Text -> Text, perGroup: nat, name: Text,
    firstByKey: map<Text, Text>, groupByKey: map<Text, nat>, groups: seq<seq<Text>>)
    requires Scanned(seen, key, perGroup, firstByKey, groupByKey, groups) && 2 <= perGroup
    requires key(name) in firstByKey && key(name) !in groupByKey
    ensures Scanned(seen + [name], key, perGroup, firstByKey,
      groupByKey[key(name) := |groups|], groups + [[firstByKey[key(name)], name]])
  {
    hide WithKey, CollisionKeys, IsGroup, AreIndexed;
    OneMoreKey(seen, key, name);
    SecondIndexed(seen, key, name, firstByKey, groupByKey);
    CollidingKeys(seen, key);
    var keys, k := CollisionKeys(seen, key), key(name);
    forall g | 0 <= g < |groups| ensures IsGroup(groups[g], seen + [name], key, keys[g], perGroup) {
      assert keys[g] in keys;
      GroupsStay(seen, key, perGroup, name, groups, g);
    }
    SecondGroup(seen, key, perGroup, name, firstByKey[k]);
  }

  lemma SecondGroup(seen: seq<Text>, key: Text -> Text, perGroup: nat, name: Text, first: Text)
    requires 2 <= perGroup && WithKey(seen, key, key(name)) == [first]
    ensures IsGroup([first, name], seen + [name], key, key(name), perGroup)
  {
    hide WithKey;
    OneMoreUnder(seen, key, name, key(name));
  }

  lemma SecondIndexed(
    seen: seq<Text>, key: Text -> Text, name: Text, firstByKey: map<Text, Text>, groupByKey: map<Text, nat>)
    requires AreIndexed(seen, key, firstByKey, groupByKey)
    requires key(name) in firstByKey && key(name) !in groupByKey
    ensures WithKey(seen, key, key(name)) == [firstByKey[key(name)]]
    ensures AreIndexed(seen + [name], key, firstByKey, groupByKey[key(name) := |CollisionKeys(seen, key)|])
  {
    hide WithKey, CollisionKeys;
    OneMoreKey(seen, key, name);
    forall k {
      OneMoreUnder(seen, key, name, k);
    }
  }

  lemma LaterIndexed(
    seen: seq<Text>, key: Text -> Text, name: Text, firstByKey: map<Text, Text>, groupByKey: map<Text, nat>)
    requires AreIndexed(seen, key, firstByKey, groupByKey) && key(name) in groupByKey
    ensures CollisionKeys(seen + [name], key) == CollisionKeys(seen, key)
    ensures AreIndexed(seen + [name], key, firstByKey, groupByKey)
  {
    hide WithKey, CollisionKeys;
    OneMoreKey(seen, key, name);
    forall k {
      OneMoreUnder(seen, key, name, k);
    }
  }

  lemma LaterUnderKey(
    seen: seq<Text>, key: Text -> Text, perGroup: nat, name: Text,
    firstByKey: map<Text, Text>, groupByKey: map<Text, nat>, groups: seq<seq<Text>>)
    requires Scanned(seen, key, perGroup, firstByKey, groupByKey, groups) && key(name) in groupByKey
    ensures groupByKey[key(name)] < |groups|
    ensures var g := groupByKey[key(name)];
      Scanned(seen + [name], key, perGroup, firstByKey, groupByKey,
        if |groups[g]| < perGroup then groups[g := groups[g] + [name]] else groups)
  {
    hide WithKey, CollisionKeys, IsGroup;
    LaterIndexed(seen, key, name, firstByKey, groupByKey);
    var keys, mine := CollisionKeys(seen, key), groupByKey[key(name)];
    assert mine < |groups| && keys[mine] == key(name);
    hide AreIndexed;
    CollidingKeys(seen, key);
    var next := if |groups[mine]| < perGroup then groups[mine := groups[mine] + [name]] else groups;
    forall g | 0 <= g < |groups| ensures IsGroup(next[g], seen + [name], key, keys[g], perGroup) {
      GroupsStay(seen, key, perGroup, name, groups, g);
      if g != mine {
        var lo, hi := if g < mine then g else mine, if g < mine then mine else g;
        assert keys[lo] != keys[hi];
      }
    }
  }

  function SortedGroups(groups: seq<seq<Text>>): (sorted: seq<seq<Text>>)
    ensures |sorted| == |groups|
    ensures forall g :: 0 <= g < |groups| ==> sorted[g] == Sorted(groups[g])
  {
    seq(|groups|, g requires 0 <= g < |groups| => Sorted(groups[g]))
  }

  ghost predicate AreSortedGroups(groups: seq<seq<Text>>, names: seq<Text>, key: Text -> Text, perGroup: nat) {
    var keys := CollisionKeys(names, key);
    && |groups| == |keys|
    && forall g :: 0 <= g < |groups| ==> groups[g] == Sorted(FirstOf(WithKey(names, key, keys[g]), perGroup))
  }

  lemma SortingGroups(groups: seq<seq<Text>>, names: seq<Text>, key: Text -> Text, perGroup: nat)
    requires AreGroups(groups, names, key, perGroup)
    ensures AreSortedGroups(SortedGroups(groups), names, key, perGroup)
  {
    hide CollisionKeys, WithKey, Sorted;
    forall g | 0 <= g < |groups|
      ensures IsGroup(groups[g], names, key, CollisionKeys(names, key)[g], perGroup)
    {
    }
  }

  /**
   `_portable_name_collisions`: the first names under each colliding key, sorted. A full sample ends
   the scan at the name that filled it.
   */
  method PortableNameCollisions(names: seq<Text>, key: Text -> Text, maximum: nat, perGroup: nat)
    returns (groups: seq<seq<Text>>, ghost scanned: nat)
    requires 1 <= maximum && 2 <= perGroup
    ensures scanned <= |names| && AreSortedGroups(groups, names[..scanned], key, perGroup)
    ensures |groups| <= maximum && (|groups| < maximum ==> scanned == |names|)
    ensures groups == [] <==> CollisionKeys(names, key) == []
  {
    hide CollisionKeys, WithKey, Scanned;
    var firstByKey: map<Text, Text> := map[];
    var groupByKey: map<Text, nat> := map[];
    var samples: seq<seq<Text>> := [];
    ScanStarts(key, perGroup);
    for i := 0 to |names|
      invariant |samples| < maximum
      invariant Scanned(names[..i], key, perGroup, firstByKey, groupByKey, samples)
    {
      var name, k := names[i], key(names[i]);
      assert names[..i + 1] == names[..i] + [name];
      if k !in firstByKey {
        FirstUnderKey(names[..i], key, perGroup, name, firstByKey, groupByKey, samples);
        firstByKey := firstByKey[k := name];
      } else if k !in groupByKey {
        SecondUnderKey(names[..i], key, perGroup, name, firstByKey, groupByKey, samples);
        groupByKey := groupByKey[k := |samples|];
        samples := samples + [[firstByKey[k], name]];
        if |samples| == maximum {
          ScannedGroups(names, i + 1, key, perGroup, firstByKey, groupByKey, samples);
          SortingGroups(samples, names[..i + 1], key, perGroup);
          return SortedGroups(samples), i + 1;
        }
      } else {
        LaterUnderKey(names[..i], key, perGroup, name, firstByKey, groupByKey, samples);
        var g := groupByKey[k];
        if |samples[g]| < perGroup {
          samples := samples[g := samples[g] + [name]];
        }
      }
    }
    ScannedGroups(names, |names|, key, perGroup, firstByKey, groupByKey, samples);
    SortingGroups(samples, names[..|names|], key, perGroup);
    return SortedGroups(samples), |names|;
  }

  lemma ScannedGroups(
    names: seq<Text>, n: nat, key: Text -> Text, perGroup: nat,
    firstByKey: map<Text, Text>, groupByKey: map<Text, nat>, groups: seq<seq<Text>>)
    requires n <= |names| && Scanned(names[..n], key, perGroup, firstByKey, groupByKey, groups)
    ensures AreGroups(groups, names[..n], key, perGroup)
    ensures groups != [] ==> CollisionKeys(names, key) != []
    ensures n == |names| && groups == [] ==> CollisionKeys(names, key) == []
  {
    hide WithKey;
    CollisionKeysGrow(names, key, n);
    assert names[..|names|] == names;
  }

  lemma {:induction false} CollisionKeysGrow(names: seq<Text>, key: Text -> Text, n: nat)
    requires n <= |names|
    ensures CollisionKeys(names[..n], key) <= CollisionKeys(names, key)
    decreases |names| - n
  {
    hide WithKey;
    if n < |names| {
      OneMoreKey(names[..n], key, names[n]);
      assert names[..n + 1] == names[..n] + [names[n]];
      CollisionKeysGrow(names, key, n + 1);
    } else {
      assert names[..n] == names;
    }
  }
}

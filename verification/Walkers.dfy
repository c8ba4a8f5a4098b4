/**
 The bounded walk over structured metadata (bundle.py, `_portable_metadata_findings`): an explicit
 stack with a budget, against plain recursion.
 */
module Walkers {
  import opened Utf8

  datatype Value =
    | Dict(entries: seq<Entry>)
    | List(items: seq<Value>)
    | Str(text: Text)
    | Scalar

  datatype Entry = Entry(key: Text, value: Value)

  /**
   What the walk asks of its surroundings: which texts are local paths, which keys hold paths, how
   the path of a child is written (bounded in length), whether texts are searched for paths inside
   them, and what the patterns match there, stripped and in order. Paths are compared themselves,
   not by their hashes.
   */
  datatype Rules = Rules(
    nonportable: Text -> bool,
    pathLike: Text -> bool,
    underKey: (Text, Text) -> Text,
    underPathKey: Text -> Text,
    underIndex: (Text, nat) -> Text,
    bounded: Text -> Text,
    scanEmbedded: bool,
    candidates: Text -> seq<Text>)

  datatype Finding =
    | PathKey(at: Text, key: Text)
    | PathValue(at: Text, value: Text)
    | EmbeddedPath(at: Text, path: Text)

  // ----- the recursive meaning -----

  function KeyFinding(r: Rules, path: Text, key: Text): seq<Finding> {
    if r.nonportable(key) then [PathKey(path, key)] else []
  }

  function ChildPath(r: Rules, path: Text, key: Text): Text {
    if r.nonportable(key) then r.underPathKey(path) else r.underKey(path, key)
  }

  /** A text that is a local path, under a key that holds paths. */
  function DirectFinding(r: Rules, path: Text, hint: Option<Text>, text: Text): (found: seq<Finding>)
    ensures |found| <= 1
  {
    if hint.Some? && hint.value != [] && r.pathLike(hint.value) && r.nonportable(text) then [PathValue(path, text)]
    else []
  }

  /** The local paths among the candidates, each at its first occurrence. */
  function EmbeddedPaths(r: Rules, candidates: seq<Text>): seq<Text> {
    if candidates == [] then []
    else
      var before, last := EmbeddedPaths(r, candidates[..|candidates| - 1]), candidates[|candidates| - 1];
      if last != [] && r.nonportable(last) && last !in before then before + [last] else before
  }

  /** The findings for embedded paths, without the one that is reported already. */
  function Reported(at: Text, paths: seq<Text>, known: set<Text>): seq<Finding> {
    if paths == [] then []
    else
      var last := paths[|paths| - 1];
      Reported(at, paths[..|paths| - 1], known) + if last in known then [] else [EmbeddedPath(at, last)]
  }

  function TextFindings(r: Rules, path: Text, hint: Option<Text>, text: Text): seq<Finding> {
    var direct := DirectFinding(r, path, hint, text);
    if !r.scanEmbedded then direct
    else direct + Reported(path, EmbeddedPaths(r, r.candidates(text)), if direct != [] then {text} else {})
  }

  /** Every finding of a value, in preorder. */
  function Findings(r: Rules, v: Value, path: Text, hint: Option<Text>): seq<Finding>
    decreases v, 1, 0
  {
    match v
    case Dict(_) => EntryFindings(r, v, 0, path)
    case List(_) => ItemFindings(r, v, 0, path, hint)
    case Str(text) => TextFindings(r, path, hint, text)
    case Scalar => []
  }

  function EntryFindings(r: Rules, d: Value, i: nat, path: Text): seq<Finding>
    requires d.Dict? && i <= |d.entries|
    decreases d, 0, |d.entries| - i
  {
    if i == |d.entries| then []
    else
      var e := d.entries[i];
      KeyFinding(r, path, e.key)
      + Findings(r, e.value, ChildPath(r, path, e.key), Some(e.key))
      + EntryFindings(r, d, i + 1, path)
  }

  function ItemFindings(r: Rules, l: Value, i: nat, path: Text, hint: Option<Text>): seq<Finding>
    requires l.List? && i <= |l.items|
    decreases l, 0, |l.items| - i
  {
    if i == |l.items| then []
    else
      Findings(r, l.items[i], r.underIndex(path, i), hint) + ItemFindings(r, l, i + 1, path, hint)
  }

  // ----- the stack -----

  /** A stack element: a value still to visit, or an iterator with the position it has reached. */
  datatype Frame =
    | Visit(value: Value, path: Text, hint: Option<Text>)
    | DictIter(dict: Value, next: nat, path: Text)
    | ListIter(list: Value, next: nat, path: Text, hint: Option<Text>)
  {
    ghost predicate Valid() {
      match this
      case Visit(_, _, _) => true
      case DictIter(d, i, _) => d.Dict? && i <= |d.entries|
      case ListIter(l, i, _, _) => l.List? && i <= |l.items|
    }
  }

  ghost function FrameFindings(r: Rules, f: Frame): seq<Finding>
    requires f.Valid()
  {
    match f
    case Visit(v, path, hint) => Findings(r, v, path, hint)
    case DictIter(d, i, path) => EntryFindings(r, d, i, path)
    case ListIter(l, i, path, hint) => ItemFindings(r, l, i, path, hint)
  }

  ghost predicate AllValid(stack: seq<Frame>) {
    forall f :: f in stack ==> f.Valid()
  }

  /** What the frames still have to report, the top of the stack first. */
  ghost function Pending(r: Rules, stack: seq<Frame>): seq<Finding>
    requires AllValid(stack)
  {
    if stack == [] then []
    else FrameFindings(r, stack[|stack| - 1]) + Pending(r, stack[..|stack| - 1])
  }

  lemma PendingPush(r: Rules, stack: seq<Frame>, f: Frame)
    requires AllValid(stack) && f.Valid()
    ensures AllValid(stack + [f])
    ensures Pending(r, stack + [f]) == FrameFindings(r, f) + Pending(r, stack)
  {
    assert (stack + [f])[..|stack|] == stack;
  }

  // ----- the measure -----

  ghost function Weight(v: Value): nat
    decreases v, 1, 0
  {
    match v
    case Dict(_) => 2 + EntriesWeight(v, 0)
    case List(_) => 2 + ItemsWeight(v, 0)
    case Str(_) => 1
    case Scalar => 1
  }

  ghost function EntriesWeight(d: Value, i: nat): nat
    requires d.Dict? && i <= |d.entries|
    decreases d, 0, |d.entries| - i
  {
    if i == |d.entries| then 0 else 1 + Weight(d.entries[i].value) + EntriesWeight(d, i + 1)
  }

  ghost function ItemsWeight(l: Value, i: nat): nat
    requires l.List? && i <= |l.items|
    decreases l, 0, |l.items| - i
  {
    if i == |l.items| then 0 else 1 + Weight(l.items[i]) + ItemsWeight(l, i + 1)
  }

  ghost function FrameWeight(f: Frame): (w: nat)
    requires f.Valid()
  {
    match f
    case Visit(v, _, _) => Weight(v)
    case DictIter(d, i, _) => 1 + EntriesWeight(d, i)
    case ListIter(l, i, _, _) => 1 + ItemsWeight(l, i)
  }

  ghost function StackWeight(stack: seq<Frame>): nat
    requires AllValid(stack)
  {
    if stack == [] then 0 else FrameWeight(stack[|stack| - 1]) + StackWeight(stack[..|stack| - 1])
  }

  lemma WeightPush(stack: seq<Frame>, f: Frame)
    requires AllValid(stack) && f.Valid()
    ensures AllValid(stack + [f])
    ensures StackWeight(stack + [f]) == FrameWeight(f) + StackWeight(stack)
  {
    assert (stack + [f])[..|stack|] == stack;
  }

  // ----- one step -----

  datatype Step = Step(found: seq<Finding>, pushed: seq<Frame>)

  predicate IsText(f: Frame) {
    f.Visit? && f.value.Str?
  }

  /** What one turn of the loop does with the frame it has popped, unless that is a text. */
  function StepOf(r: Rules, f: Frame): (s: Step)
    requires f.Valid() && !IsText(f)
    ensures |s.found| <= 1 && |s.pushed| <= 2
    ensures forall i :: 0 <= i < |s.pushed| ==> s.pushed[i].Valid()
    ensures s.pushed != [] ==> !s.pushed[0].Visit?
  {
    match f
    case DictIter(d, i, path) =>
      if i == |d.entries| then Step([], [])
      else
        var e := d.entries[i];
        Step(KeyFinding(r, path, e.key),
          [DictIter(d, i + 1, path), Visit(e.value, ChildPath(r, path, e.key), Some(e.key))])
    case ListIter(l, i, path, hint) =>
      if i == |l.items| then Step([], [])
      else Step([], [ListIter(l, i + 1, path, hint), Visit(l.items[i], r.underIndex(path, i), hint)])
    case Visit(v, path, hint) =>
      match v
      case Dict(_) => Step([], [DictIter(v, 0, path)])
      case List(_) => Step([], [ListIter(v, 0, path, hint)])
      case Scalar => Step([], [])
  }

  /** A step reports what it finds and leaves exactly the rest to the frames it pushes. */
  lemma StepKeepsFindings(r: Rules, stack: seq<Frame>, f: Frame)
    requires AllValid(stack) && f.Valid() && !IsText(f)
    ensures var s := StepOf(r, f);
      && AllValid(stack + s.pushed)
      && FrameFindings(r, f) + Pending(r, stack) == s.found + Pending(r, stack + s.pushed)
      && StackWeight(stack + s.pushed) < FrameWeight(f) + StackWeight(stack)
  {
    hide Pending, StackWeight;
    var s := StepOf(r, f);
    if |s.pushed| == 0 {
      assert stack + s.pushed == stack;
    } else {
      PendingPush(r, stack, s.pushed[0]);
      WeightPush(stack, s.pushed[0]);
      if |s.pushed| == 1 {
        assert stack + s.pushed == stack + [s.pushed[0]];
      } else {
        PendingPush(r, stack + [s.pushed[0]], s.pushed[1]);
        WeightPush(stack + [s.pushed[0]], s.pushed[1]);
        assert stack + s.pushed == stack + [s.pushed[0]] + [s.pushed[1]];
      }
    }
  }

  // ----- texts -----

  lemma {:induction false} EmbeddedGrow(r: Rules, candidates: seq<Text>, i: nat)
    requires i <= |candidates|
    ensures EmbeddedPaths(r, candidates[..i]) <= EmbeddedPaths(r, candidates)
    decreases |candidates| - i
  {
    if i < |candidates| {
      assert candidates[..i + 1][..i] == candidates[..i];
      EmbeddedGrow(r, candidates, i + 1);
    } else {
      assert candidates[..i] == candidates;
    }
  }

  lemma {:induction false} ReportedGrow(at: Text, paths: seq<Text>, known: set<Text>, i: nat)
    requires i <= |paths|
    ensures Reported(at, paths[..i], known) <= Reported(at, paths, known)
    decreases |paths| - i
  {
    if i < |paths| {
      assert paths[..i + 1][..i] == paths[..i];
      ReportedGrow(at, paths, known, i + 1);
    } else {
      assert paths[..i] == paths;
    }
  }

  ghost predicate AreDistinct(paths: seq<Text>) {
    forall i, j :: 0 <= i < j < |paths| ==> paths[i] != paths[j]
  }

  lemma {:induction false} EmbeddedDistinct(r: Rules, candidates: seq<Text>)
    ensures AreDistinct(EmbeddedPaths(r, candidates))
  {
    if candidates != [] {
      EmbeddedDistinct(r, candidates[..|candidates| - 1]);
      EmbeddedNext(r, candidates, |candidates| - 1);
      assert candidates[..|candidates|] == candidates;
      var before, paths := EmbeddedPaths(r, candidates[..|candidates| - 1]), EmbeddedPaths(r, candidates);
      assert forall i :: 0 <= i < |before| ==> paths[i] == before[i] && before[i] in before;
    }
  }

  /** Of distinct paths, at most one is reported already. */
  lemma {:induction false} ReportedCount(at: Text, paths: seq<Text>, t: Text)
    requires AreDistinct(paths)
    ensures |Reported(at, paths, {})| == |paths|
    ensures |Reported(at, paths, {t})| == |paths| - if t in paths then 1 else 0
  {
    if paths != [] {
      var front, last := paths[..|paths| - 1], paths[|paths| - 1];
      ReportedCount(at, front, t);
      assert paths == front + [last];
      forall i | 0 <= i < |front| ensures front[i] != last {
        assert paths[i] != paths[|front|];
      }
    }
  }

  /**
   `_embedded_nonportable_paths`: the first `maxPaths` of them. It calls itself truncated when there
   are candidates left, whether or not there is a path among them.
   */
  method EmbeddedNonportablePaths(r: Rules, text: Text, maxPaths: nat) returns (found: seq<Text>, truncated: bool)
    ensures found <= EmbeddedPaths(r, r.candidates(text)) && |found| <= maxPaths
    ensures if truncated then |found| == maxPaths else found == EmbeddedPaths(r, r.candidates(text))
  {
    hide EmbeddedPaths;
    var candidates := r.candidates(text);
    found := [];
    NothingEmbedded(r);
    for i := 0 to |candidates|
      invariant found == EmbeddedPaths(r, candidates[..i]) && |found| <= maxPaths
    {
      EmbeddedGrow(r, candidates, i);
      if |found| >= maxPaths {
        return found, true;
      }
      EmbeddedNext(r, candidates, i);
      var candidate := candidates[i];
      if candidate != [] && r.nonportable(candidate) && candidate !in found {
        found := found + [candidate];
      }
    }
    assert candidates[..|candidates|] == candidates;
    return found, false;
  }

  lemma NothingEmbedded(r: Rules)
    ensures EmbeddedPaths(r, []) == []
  {
  }

  lemma EmbeddedNext(r: Rules, candidates: seq<Text>, i: nat)
    requires i < |candidates|
    ensures var before, next := EmbeddedPaths(r, candidates[..i]), candidates[i];
      EmbeddedPaths(r, candidates[..i + 1]) ==
        if next != [] && r.nonportable(next) && next !in before then before + [next] else before
  {
    assert candidates[..i + 1][..i] == candidates[..i];
  }

  /** A direct finding that takes the last slot leaves the text unsearched. */
  predicate Unsearched(r: Rules, path: Text, hint: Option<Text>, text: Text, room: int) {
    r.scanEmbedded && room == 1 && DirectFinding(r, path, hint, text) != []
  }

  /** What a turn does with a text when there is room for `room` more findings. */
  method ReportText(r: Rules, path: Text, hint: Option<Text>, text: Text, room: nat)
    returns (found: seq<Finding>, cut: bool)
    requires room > 0
    ensures found <= TextFindings(r, path, hint, text) && |found| <= room
    ensures cut ==> r.scanEmbedded && |found| >= room - 1
    ensures Unsearched(r, path, hint, text, room) ==> found == DirectFinding(r, path, hint, text) && !cut
    ensures !cut && !Unsearched(r, path, hint, text, room) ==> found == TextFindings(r, path, hint, text)
  {
    hide EmbeddedPaths, Reported;
    found, cut := DirectFinding(r, path, hint, text), false;
    if !r.scanEmbedded || |found| >= room {
      return;
    }
    var direct, known := found, if found != [] then {text} else {};
    var paths;
    paths, cut := EmbeddedNonportablePaths(r, text, room - |found|);
    ghost var all := EmbeddedPaths(r, r.candidates(text));
    NothingReported(path, known);
    for i := 0 to |paths|
      invariant found == direct + Reported(path, paths[..i], known)
    {
      ReportedNext(path, paths, known, i);
      if paths[i] !in known {
        found := found + [EmbeddedPath(path, paths[i])];
      }
    }
    assert paths[..|paths|] == paths && paths == all[..|paths|];
    ReportedGrow(path, all, known, |paths|);
    EmbeddedDistinct(r, r.candidates(text));
    ReportedCount(path, paths, text);
  }

  lemma NothingReported(at: Text, known: set<Text>)
    ensures Reported(at, [], known) == []
  {
  }

  lemma ReportedNext(at: Text, paths: seq<Text>, known: set<Text>, i: nat)
    requires i < |paths|
    ensures Reported(at, paths[..i + 1], known) ==
      Reported(at, paths[..i], known) + if paths[i] in known then [] else [EmbeddedPath(at, paths[i])]
  {
    assert paths[..i + 1][..i] == paths[..i];
  }

  ghost predicate HoldsOnly(paths: seq<Text>, text: Text) {
    forall p :: p in paths ==> p == text
  }

  lemma DistinctOnly(paths: seq<Text>, text: Text)
    requires AreDistinct(paths)
    ensures HoldsOnly(paths, text) <==> |paths| == if text in paths then 1 else 0
  {
    if |paths| >= 2 {
      assert paths[0] in paths && paths[1] in paths;
    }
    if |paths| == 1 {
      assert paths == [paths[0]] && paths[0] in paths;
    }
  }

  /** What goes unreported then: nothing exactly if the text holds no local path but itself. */
  lemma NothingMissed(r: Rules, path: Text, hint: Option<Text>, text: Text)
    requires r.scanEmbedded && DirectFinding(r, path, hint, text) != []
    ensures TextFindings(r, path, hint, text) == DirectFinding(r, path, hint, text) <==>
      HoldsOnly(EmbeddedPaths(r, r.candidates(text)), text)
  {
    hide DirectFinding;
    var paths := EmbeddedPaths(r, r.candidates(text));
    EmbeddedDistinct(r, r.candidates(text));
    ReportedCount(path, paths, text);
    DistinctOnly(paths, text);
    var direct, others := DirectFinding(r, path, hint, text), Reported(path, paths, {text});
    assert TextFindings(r, path, hint, text) == direct + others;
    assert |direct + others| == |direct| <==> others == [];
  }

  // ----- the walk -----

  /**
   `_portable_metadata_findings`: findings of the recursive meaning, in order, up to `maxFindings`. A
   false `truncated` means that there are no others, except where the value is itself a text whose
   direct finding takes the only slot. A true one means that the slots are used up, or all but one
   when texts are searched: a path found again inside its own text takes a slot that stays empty.
   */
  method PortableMetadataFindings(r: Rules, value: Value, path: Text, hint: Option<Text>, maxFindings: int)
    returns (findings: seq<Finding>, truncated: bool)
    ensures var all := Findings(r, value, r.bounded(path), hint);
      && findings <= all
      && |findings| <= (if maxFindings <= 0 then 0 else maxFindings)
      && (truncated || findings == all ||
          (value.Str? && Unsearched(r, r.bounded(path), hint, value.text, maxFindings)))
      && (truncated ==> |findings| >= maxFindings - 1 && (!r.scanEmbedded ==> |findings| >= maxFindings))
    ensures value.Str? && Unsearched(r, r.bounded(path), hint, value.text, maxFindings) ==>
      !truncated && findings == DirectFinding(r, r.bounded(path), hint, value.text)
  {
    hide Pending, StackWeight, StepOf, Findings, TextFindings, DirectFinding, Unsearched, FrameFindings, FrameWeight,
      AllValid;
    findings := [];
    ghost var lone := value.Str? && Unsearched(r, r.bounded(path), hint, value.text, maxFindings);
    UnsearchedRoom(r, r.bounded(path), hint, if value.Str? then value.text else [], maxFindings);
    if maxFindings <= 0 {
      return findings, true;
    }
    ghost var all := Findings(r, value, r.bounded(path), hint);
    var root := Visit(value, r.bounded(path), hint);
    var stack := [root];
    Started(r, value, r.bounded(path), hint);
    ghost var missed := false;
    while stack != []
      invariant AllValid(stack)
      invariant |findings| <= maxFindings && findings <= all
      invariant !missed ==> all == findings + Pending(r, stack)
      invariant missed ==> |findings| == maxFindings
      invariant stack != [] && stack[0].Visit? ==> stack == [root] && findings == [] && !missed
      invariant missed && stack == [] ==> lone
      invariant lone ==>
        stack == [root] || (stack == [] && findings == DirectFinding(r, r.bounded(path), hint, value.text))
      decreases StackWeight(stack)
    {
      if |findings| >= maxFindings {
        return findings, true;
      }
      var top := stack[|stack| - 1];
      Popped(r, stack);
      stack := stack[..|stack| - 1];
      if IsText(top) {
        var found, cut := ReportText(r, top.path, top.hint, top.value.text, maxFindings - |findings|);
        TextFrame(r, top, stack);
        missed := Unsearched(r, top.path, top.hint, top.value.text, maxFindings - |findings|);
        UnsearchedRoom(r, top.path, top.hint, top.value.text, maxFindings - |findings|);
        Absorb(findings, found, FrameFindings(r, top), Pending(r, stack));
        findings := findings + found;
        if cut {
          return findings, true;
        }
      } else {
        StepTaken(r, findings, stack, top);
        var step := StepOf(r, top);
        findings := findings + step.found;
        stack := stack + step.pushed;
      }
    }
    NothingPending(r);
    return findings, false;
  }

  /** A text's frame stands for the text's findings, and weighs something. */
  lemma TextFrame(r: Rules, f: Frame, stack: seq<Frame>)
    requires IsText(f) && AllValid(stack)
    ensures FrameFindings(r, f) == TextFindings(r, f.path, f.hint, f.value.text)
    ensures FrameWeight(f) == 1
  {
  }

  lemma StepTaken(r: Rules, findings: seq<Finding>, stack: seq<Frame>, f: Frame)
    requires AllValid(stack) && f.Valid() && !IsText(f)
    ensures var s := StepOf(r, f);
      && AllValid(stack + s.pushed)
      && findings + (FrameFindings(r, f) + Pending(r, stack)) == findings + s.found + Pending(r, stack + s.pushed)
      && StackWeight(stack + s.pushed) < FrameWeight(f) + StackWeight(stack)
  {
    StepKeepsFindings(r, stack, f);
    hide *;
    var s := StepOf(r, f);
    assert findings + (s.found + Pending(r, stack + s.pushed)) == findings + s.found + Pending(r, stack + s.pushed);
  }

  lemma Popped(r: Rules, stack: seq<Frame>)
    requires AllValid(stack) && stack != []
    ensures var front, top := stack[..|stack| - 1], stack[|stack| - 1];
      && AllValid(front) && top.Valid()
      && Pending(r, stack) == FrameFindings(r, top) + Pending(r, front)
      && StackWeight(stack) == FrameWeight(top) + StackWeight(front)
  {
    var front, top := stack[..|stack| - 1], stack[|stack| - 1];
    assert stack == front + [top];
    PendingPush(r, front, top);
    WeightPush(front, top);
  }

  lemma UnsearchedRoom(r: Rules, path: Text, hint: Option<Text>, text: Text, room: int)
    ensures Unsearched(r, path, hint, text, room) ==> room == 1 == |DirectFinding(r, path, hint, text)|
  {
  }

  lemma Absorb<T>(before: seq<T>, found: seq<T>, whole: seq<T>, rest: seq<T>)
    requires found <= whole
    ensures before + found <= before + (whole + rest)
    ensures before + (whole + rest) == before + whole + rest
  {
  }

  lemma Started(r: Rules, v: Value, path: Text, hint: Option<Text>)
    ensures AllValid([Visit(v, path, hint)])
    ensures Pending(r, [Visit(v, path, hint)]) == Findings(r, v, path, hint)
  {
    hide Findings;
    var stack := [Visit(v, path, hint)];
    assert stack[..0] == [];
    assert Pending(r, stack) == FrameFindings(r, stack[0]) + Pending(r, []);
  }

  lemma NothingPending(r: Rules)
    ensures Pending(r, []) == []
  {
  }
}

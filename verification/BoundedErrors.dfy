/** The bounded diagnostics list every bundle check reports into. */
module BoundedErrors {

  /** A list element: a diagnostic somebody reported, or the one truncation marker. */
  datatype Item<+E> =
    | Original(error: E)
    | Marker(maximum: nat, omitted: nat)

  /**
   What a collector has been told: the diagnostics offered to it one by one, and how many it
   was told of in all, including those another collector had already dropped.
   */
  datatype History<+E> = History(offered: seq<E>, total: nat)
  {
    ghost predicate Valid() {
      |offered| <= total
    }
  }

  function Originals<E>(errors: seq<E>): (items: seq<Item<E>>)
    ensures |items| == |errors|
    ensures forall i :: 0 <= i < |items| ==> items[i] == Original(errors[i])
  {
    seq(|errors|, i requires 0 <= i < |errors| => Original(errors[i]))
  }

  ghost function Kept<E>(maximum: nat, h: History<E>): (kept: seq<E>)
    requires 2 <= maximum
  {
    if |h.offered| <= maximum - 1 then h.offered else h.offered[..maximum - 1]
  }

  /** The list contents that a history determines. */
  ghost function Contents<E>(maximum: nat, h: History<E>): (items: seq<Item<E>>)
    requires 2 <= maximum && h.Valid()
  {
    var kept := Kept(maximum, h);
    var omitted := h.total - |kept|;
    Originals(kept) + if omitted > 0 then [Marker(maximum, omitted)] else []
  }

  lemma ContentsShape<E>(maximum: nat, h: History<E>)
    requires 2 <= maximum && h.Valid()
    ensures |Kept(maximum, h)| <= maximum - 1 && |Kept(maximum, h)| <= h.total
    ensures |Contents(maximum, h)| == |Kept(maximum, h)| + if h.total > |Kept(maximum, h)| then 1 else 0
  {
  }

  lemma ContentsPrefix<E>(maximum: nat, h: History<E>)
    requires 2 <= maximum && h.Valid()
    ensures Originals(Kept(maximum, h)) <= Contents(maximum, h)
  {
  }

  /** Offering one more diagnostic while there is room puts it last, before any marker. */
  lemma ContentsWithRoom<E>(maximum: nat, h: History<E>, e: E)
    requires 2 <= maximum && h.Valid() && |Kept(maximum, h)| < maximum - 1
    ensures var kept, h' := Kept(maximum, h), History(h.offered + [e], h.total + 1);
      && Kept(maximum, h') == kept + [e]
      && Contents(maximum, h') ==
        Contents(maximum, h)[..|kept|] + [Original(e)] + Contents(maximum, h)[|kept|..]
  {
    var kept := Kept(maximum, h);
    assert Originals(kept + [e]) == Originals(kept) + [Original(e)];
    assert Contents(maximum, h)[..|kept|] == Originals(kept);
  }

  /** Without room it changes nothing but the counts. */
  lemma ContentsWithoutRoom<E>(maximum: nat, h: History<E>, e: E)
    requires 2 <= maximum && h.Valid() && |Kept(maximum, h)| == maximum - 1
    requires |h.offered| < h.total
    ensures var h' := History(h.offered + [e], h.total);
      Kept(maximum, h') == Kept(maximum, h) && Contents(maximum, h') == Contents(maximum, h)
  {
  }

  lemma OneMore<E>(before: seq<E>, s: seq<E>, i: nat)
    requires i < |s|
    ensures before + s[..i] + [s[i]] == before + s[..i + 1]
  {
  }

  class Collector<E> {
    var items: seq<Item<E>>
    const maximum: nat
    var totalCount: nat
    var omittedCount: nat
    ghost var history: History<E>

    ghost predicate Valid()
      reads this
    {
      && 2 <= maximum
      && history.Valid()
      && totalCount == history.total
      && omittedCount == history.total - |Kept(maximum, history)|
      && items == Contents(maximum, history)
    }

    constructor (maximum: nat)
      requires 2 <= maximum
      ensures Valid()
      ensures this.maximum == maximum
      ensures history == History([], 0)
    {
      this.maximum := maximum;
      items, totalCount, omittedCount := [], 0, 0;
      history := History([], 0);
    }

    predicate Truncated()
      reads this
    {
      omittedCount > 0
    }

    function RetainedOriginalCount(): (n: nat)
      requires Valid()
      reads this
      ensures n == |Kept(maximum, history)|
    {
      |items| - if Truncated() then 1 else 0
    }

    method RecordUnavailable(count: int)
      requires Valid()
      modifies this
      ensures Valid()
      ensures history == History(old(history).offered, old(history).total + if count > 0 then count else 0)
    {
      if count <= 0 {
        return;
      }
      var hadMarker := Truncated();
      totalCount := totalCount + count;
      omittedCount := omittedCount + count;
      history := History(history.offered, history.total + count);
      if !hadMarker {
        items := items + [Marker(maximum, omittedCount)];
        return;
      }
      items := items[|items| - 1 := Marker(maximum, omittedCount)];
    }

    method Append(error: E)
      requires Valid()
      modifies this
      ensures Valid()
      ensures history == History(old(history).offered + [error], old(history).total + 1)
    {
      hide Contents;
      ContentsShape(maximum, history);
      if RetainedOriginalCount() < maximum - 1 {
        ContentsWithRoom(maximum, history, error);
        totalCount := totalCount + 1;
        if Truncated() {
          items := items[..|items| - 1] + [Original(error)] + items[|items| - 1..];
        } else {
          items := items + [Original(error)];
        }
        history := History(history.offered + [error], history.total + 1);
        return;
      }
      RecordUnavailable(1);
      ContentsWithoutRoom(maximum, history, error);
      history := History(history.offered + [error], history.total);
    }

    /** `extend` with any other iterable. */
    method Extend(errors: seq<E>)
      requires Valid()
      modifies this
      ensures Valid()
      ensures history == History(old(history).offered + errors, old(history).total + |errors|)
    {
      for i := 0 to |errors|
        invariant Valid()
        invariant history == History(old(history).offered + errors[..i], old(history).total + i)
      {
        Append(errors[i]);
        assert errors[..i + 1] == errors[..i] + [errors[i]];
      }
      assert errors[..|errors|] == errors;
    }

    /** The items without the marker. */
    method RetainedItems() returns (retained: seq<Item<E>>)
      requires Valid()
      ensures retained == Originals(Kept(maximum, history))
      ensures |retained| <= totalCount == history.total
    {
      hide Contents;
      ContentsShape(maximum, history);
      ContentsPrefix(maximum, history);
      return if Truncated() then items[..|items| - 1] else items;
    }

    /** `extend` with another collector; `ok` is false where the source raises `ValueError`. */
    method ExtendCollector(errors: Collector<E>) returns (ok: bool)
      requires Valid() && errors.Valid()
      modifies this
      ensures Valid()
      ensures ok == (errors != this)
      ensures !ok ==> history == old(history)
      ensures ok ==>
        var kept := Kept(errors.maximum, errors.history);
        history == History(old(history).offered + kept, old(history).total + errors.history.total)
    {
      if errors == this {
        return false;
      }
      hide Contents, Kept, Valid;
      var retained := errors.RetainedItems();
      ghost var kept := Kept(errors.maximum, errors.history);
      for i := 0 to |retained|
        invariant Valid()
        invariant history == History(old(history).offered + kept[..i], old(history).total + i)
      {
        Append(retained[i].error);
        OneMore(old(history).offered, kept, i);
      }
      assert kept[..|kept|] == kept;
      RecordUnavailable(errors.totalCount - |retained|);
      return true;
    }
  }

  /** `after` is `before` with exactly `found` reported on top. */
  ghost predicate Grew<E>(before: History<E>, after: History<E>, found: seq<E>) {
    after == History(before.offered + found, before.total + |found|)
  }

  lemma GrewNot<E>(h: History<E>)
    ensures Grew(h, h, [])
  {
  }

  lemma GrewTwice<E>(h0: History<E>, h1: History<E>, h2: History<E>, a: seq<E>, b: seq<E>)
    requires Grew(h0, h1, a) && Grew(h1, h2, b)
    ensures Grew(h0, h2, a + b)
  {
    assert h0.offered + (a + b) == h0.offered + a + b;
  }

  /** Extends a collector in the middle of a pass that has already reported `seen`. */
  method Report<E>(errors: Collector<E>, found: seq<E>, ghost before: History<E>, ghost seen: seq<E>)
    requires errors.Valid() && Grew(before, errors.history, seen)
    modifies errors
    ensures errors.Valid() && Grew(before, errors.history, seen + found)
  {
    ghost var h1 := errors.history;
    errors.Extend(found);
    GrewTwice(before, h1, errors.history, seen, found);
  }

  /**
   What every reachable collector looks like: bounded, fully counted, its originals the first
   diagnostics offered in order, and a marker exactly when something was dropped, at the end.
   */
  lemma ContentsMeaning<E>(maximum: nat, h: History<E>)
    requires 2 <= maximum && h.Valid()
    ensures |Contents(maximum, h)| <= maximum
    ensures Kept(maximum, h) <= h.offered
    ensures |Kept(maximum, h)| == maximum - 1 || Kept(maximum, h) == h.offered
    ensures forall i {:trigger Contents(maximum, h)[i]} :: 0 <= i < |Contents(maximum, h)| ==>
      (Contents(maximum, h)[i].Marker? <==> i == |Kept(maximum, h)|)
    ensures forall i {:trigger Kept(maximum, h)[i]} :: 0 <= i < |Kept(maximum, h)| ==>
      Contents(maximum, h)[i] == Original(h.offered[i])
    ensures h.total > |Kept(maximum, h)| <==> |Contents(maximum, h)| == |Kept(maximum, h)| + 1
    ensures h.total > |Kept(maximum, h)| ==>
      Contents(maximum, h)[|Kept(maximum, h)|] == Marker(maximum, h.total - |Kept(maximum, h)|)
  {
  }

  /** No diagnostic is ever lost without trace: the list is empty exactly when nothing was reported. */
  lemma EmptyMeansNothingReported<E>(maximum: nat, h: History<E>)
    requires 2 <= maximum && h.Valid()
    ensures Contents(maximum, h) == [] <==> h.total == 0
  {
  }

  /** One call on a collector; the errors of another collector come with all its own calls. */
  datatype Call<+E> =
    | AppendCall(error: E)
    | ExtendCall(errors: seq<E>)
    | ExtendCollectorCall(maximum: nat, calls: seq<Call<E>>)

  ghost predicate Legal<E>(calls: seq<Call<E>>) {
    forall c :: c in calls && c.ExtendCollectorCall? ==> 2 <= c.maximum && Legal(c.calls)
  }

  /** The history left by a run of calls, by the postconditions of the three methods. */
  ghost function After<E>(calls: seq<Call<E>>): (h: History<E>)
    requires Legal(calls)
  {
    if calls == [] then History([], 0)
    else
      var before := After(calls[..|calls| - 1]);
      match calls[|calls| - 1]
      case AppendCall(e) => History(before.offered + [e], before.total + 1)
      case ExtendCall(es) => History(before.offered + es, before.total + |es|)
      case ExtendCollectorCall(m, inner) =>
        var other := After(inner);
        History(before.offered + Kept(m, other), before.total + other.total)
  }

  /** How many diagnostics were reported in a run, at any depth. */
  ghost function Reported<E>(calls: seq<Call<E>>): nat {
    if calls == [] then 0
    else
      Reported(calls[..|calls| - 1]) +
      match calls[|calls| - 1]
      case AppendCall(_) => 1
      case ExtendCall(es) => |es|
      case ExtendCollectorCall(_, inner) => Reported(inner)
  }

  /** Over every run: the list stays bounded, and retained plus omitted is all that was reported. */
  lemma {:induction false} RunIsCounted<E>(maximum: nat, calls: seq<Call<E>>)
    requires 2 <= maximum && Legal(calls)
    ensures After(calls).Valid()
    ensures After(calls).total == Reported(calls)
    ensures |Contents(maximum, After(calls))| <= maximum
    ensures Contents(maximum, After(calls)) == [] <==> Reported(calls) == 0
  {
    if calls != [] {
      var last := calls[|calls| - 1];
      assert last in calls;
      RunIsCounted(maximum, calls[..|calls| - 1]);
      if last.ExtendCollectorCall? {
        RunIsCounted(maximum, last.calls);
      }
    }
  }
}

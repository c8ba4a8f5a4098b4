/**
 The byte-work account of one verification pass (bundle.py, `_BundleVerificationBudget`). The
 deadline it also carries is left out.
 */
module WorkBudget {
  import opened Struct
  import opened Utf8
  import opened Samplers
  import opened Limits
  import opened ZipFormat
  import opened StableSort
  import B = ManifestBinding

  /** The byte work one pass may do: both hashes of the archive, its data once or twice, and one chunk. */
  function Allowance(fileSize: nat, maxExpanded: nat, embedded: bool): nat {
    fileSize * 2 + (if embedded then maxExpanded * 2 else maxExpanded) + IO_CHUNK_BYTES
  }

  class Budget {
    const maxWork: nat
    var work: nat

    ghost predicate Valid()
      reads this
    {
      work <= maxWork
    }

    /** The account of one pass over a bundle, with or without the embedded root. */
    constructor (fileSize: nat, maxExpanded: nat, embedded: bool)
      ensures Valid() && work == 0 && maxWork == Allowance(fileSize, maxExpanded, embedded)
    {
      maxWork := fileSize * 2 + maxExpanded * (if embedded then 2 else 1) + IO_CHUNK_BYTES;
      work := 0;
    }

    method Consume(count: int) returns (ok: bool)
      requires Valid()
      modifies this
      ensures Valid()
      ensures ok <==> old(work) + (if count < 0 then 0 else count) <= maxWork
      ensures work == if ok then old(work) + (if count < 0 then 0 else count) else old(work)
    {
      var nextTotal := work + if count < 0 then 0 else count;
      if nextTotal > maxWork {
        return false;
      }
      work := nextTotal;
      return true;
    }

    /** `_bounded_bundle_sha256`: the whole file, chunk by chunk. */
    method HashArchive(fileSize: nat) returns (ok: bool)
      requires Valid()
      modifies this
      ensures Valid()
      ensures ok <==> old(work) + fileSize <= maxWork
      ensures ok ==> work == old(work) + fileSize
    {
      var position := 0;
      while position < fileSize
        invariant Valid() && position <= fileSize && work == old(work) + position
      {
        var chunk := Min(IO_CHUNK_BYTES, fileSize - position);
        ok := Consume(chunk);
        if !ok {
          return;
        }
        position := position + chunk;
      }
      return true;
    }

    /** Hashing one member: its stream comes in any pieces, and may turn out longer than declared. */
    method ReadMember(declared: nat, pieces: seq<nat>) returns (r: ReadResult)
      requires Valid()
      modifies this
      ensures Valid()
      ensures r == OverBudget <==> old(work) + Charged(declared, pieces, 0) > maxWork
      ensures r != OverBudget ==> work == old(work) + Charged(declared, pieces, 0)
      ensures r == TooLong ==> Total(pieces) > declared
      ensures r == Whole ==> Total(pieces) <= declared
    {
      hide Total;
      var size: nat := 0;
      assert pieces[0..] == pieces;
      TotalOfPrefix(pieces, 0);
      for i := 0 to |pieces|
        invariant Valid() && 0 <= size <= declared && work == old(work) + size
        invariant size + Charged(declared, pieces[i..], size) == Charged(declared, pieces, 0)
        invariant size == Total(pieces[..i])
      {
        ChargedNext(declared, pieces[i..], size);
        assert pieces[i..][1..] == pieces[i + 1..];
        TotalOfPrefix(pieces, i);
        if size + pieces[i] > declared {
          TotalGrows(pieces, i + 1);
          return TooLong;
        }
        var ok := Consume(pieces[i]);
        if !ok {
          return OverBudget;
        }
        size := size + pieces[i];
      }
      assert pieces[..|pieces|] == pieces;
      return Whole;
    }
  }

  datatype ReadResult = Whole | TooLong | OverBudget

  function Total(pieces: seq<nat>): nat {
    SumBy(pieces, (n: nat) => n)
  }

  /** What reading the rest of a member charges: its pieces up to the first that exceeds the declared size. */
  function Charged(declared: nat, pieces: seq<nat>, size: nat): nat {
    if pieces == [] || size + pieces[0] > declared then 0
    else pieces[0] + Charged(declared, pieces[1..], size + pieces[0])
  }

  lemma ChargedNext(declared: nat, pieces: seq<nat>, size: nat)
    requires pieces != []
    ensures Charged(declared, pieces, size) ==
      if size + pieces[0] > declared then 0 else pieces[0] + Charged(declared, pieces[1..], size + pieces[0])
  {
  }

  lemma {:induction false} ChargedWithin(declared: nat, pieces: seq<nat>, size: nat)
    requires size <= declared
    ensures size + Charged(declared, pieces, size) <= declared
  {
    if pieces != [] && size + pieces[0] <= declared {
      ChargedWithin(declared, pieces[1..], size + pieces[0]);
    }
  }

  /** A stream of the declared size is charged in full. */
  lemma {:induction false} ChargedWhole(declared: nat, pieces: seq<nat>, size: nat)
    requires size + Total(pieces) == declared
    ensures size + Charged(declared, pieces, size) == declared
  {
    if pieces != [] {
      SumCons(pieces, (n: nat) => n);
      ChargedWhole(declared, pieces[1..], size + pieces[0]);
    }
  }

  lemma TotalOfPrefix(pieces: seq<nat>, i: nat)
    requires i <= |pieces|
    ensures i == 0 ==> Total(pieces[..i]) == 0
    ensures i < |pieces| ==> Total(pieces[..i + 1]) == Total(pieces[..i]) + pieces[i]
  {
    SumNext(pieces, (n: nat) => n, i);
  }

  lemma {:induction false} TotalGrows(pieces: seq<nat>, i: nat)
    requires i <= |pieces|
    ensures Total(pieces[..i]) <= Total(pieces)
    decreases |pieces| - i
  {
    if i < |pieces| {
      TotalOfPrefix(pieces, i);
      TotalGrows(pieces, i + 1);
    } else {
      assert pieces[..i] == pieces;
    }
  }

  // ----- which members a pass reads -----

  /** The member an entry leads to, if its path is safe and one member only has that name. */
  function Lead(a: B.Archive, e: B.Entry): (name: Option<Text>)
    ensures name.Some? ==> e.Entry? && name.value == B.ROOT + e.path && name.value in B.Names(a.members)
  {
    if e.NotObject? || B.IsUnsafe(a, e.path) || B.CountOf(a, B.ROOT + e.path) != 1 then None
    else
      assert B.ROOT + e.path in multiset(B.Names(a.members));
      Some(B.ROOT + e.path)
  }

  /** The names of the members the entries have read, in order. */
  function ReadNames(a: B.Archive, entries: seq<B.Entry>): (names: seq<Text>)
    ensures forall t :: t in names ==> t in B.Names(a.members)
  {
    if entries == [] then []
    else
      var name := Lead(a, entries[|entries| - 1]);
      ReadNames(a, entries[..|entries| - 1]) + if name.Some? then [name.value] else []
  }

  /** The manifest is read if it is one member, and not too large. */
  predicate ReadsManifest(a: B.Archive) {
    B.CountOf(a, B.MANIFEST) == 1 && DeclaredOf(a, B.MANIFEST) <= B.MANIFEST_MAX_BYTES
  }

  /** All members a pass reads: the manifest, and what its entries lead to if they are looked at. */
  function VisitedNames(a: B.Archive, manifest: Option<B.Manifest>): (names: seq<Text>)
    ensures forall t :: t in names ==> t in B.Names(a.members)
  {
    if !ReadsManifest(a) then []
    else
      assert B.MANIFEST in multiset(B.Names(a.members));
      [B.MANIFEST] + if manifest.Some? then ReadNames(a, manifest.value.files) else []
  }

  /** No two entries lead to the same member, which is to say that the paths that are read are distinct. */
  ghost predicate ReadOnceEach(a: B.Archive, entries: seq<B.Entry>) {
    forall i, j :: 0 <= i < j < |entries| && Lead(a, entries[i]).Some? ==> Lead(a, entries[i]) != Lead(a, entries[j])
  }

  lemma SamePath(a: B.Archive, d: B.Entry, e: B.Entry)
    requires Lead(a, d).Some? && Lead(a, e).Some?
    ensures Lead(a, d) == Lead(a, e) <==> d.path == e.path
  {
    assert (B.ROOT + d.path)[|B.ROOT|..] == d.path && (B.ROOT + e.path)[|B.ROOT|..] == e.path;
  }

  /** An entry leads back to the manifest. */
  ghost predicate ListsManifest(a: B.Archive, entries: seq<B.Entry>) {
    LedTo(a, entries, B.MANIFEST)
  }

  ghost predicate LedTo(a: B.Archive, entries: seq<B.Entry>, name: Text) {
    exists i :: 0 <= i < |entries| && Lead(a, entries[i]) == Some(name)
  }

  lemma LedToSnoc(a: B.Archive, front: seq<B.Entry>, e: B.Entry, name: Text)
    ensures LedTo(a, front + [e], name) <==> LedTo(a, front, name) || Lead(a, e) == Some(name)
  {
    hide Lead;
    var all := front + [e];
    assert forall i :: 0 <= i < |front| ==> all[i] == front[i];
    assert all[|front|] == e;
  }

  lemma {:induction false} ReadNamesAre(a: B.Archive, entries: seq<B.Entry>)
    ensures forall t :: t in ReadNames(a, entries) <==> LedTo(a, entries, t)
  {
    if entries != [] {
      hide Lead;
      var front, e := entries[..|entries| - 1], entries[|entries| - 1];
      ReadNamesAre(a, front);
      assert entries == front + [e];
      forall t ensures t in ReadNames(a, entries) <==> LedTo(a, entries, t) {
        LedToSnoc(a, front, e, t);
      }
    }
  }

  lemma {:induction false} ReadNamesDistinct(a: B.Archive, entries: seq<B.Entry>)
    ensures AllDistinct(ReadNames(a, entries)) <==> ReadOnceEach(a, entries)
  {
    if entries != [] {
      hide Lead, LedTo, ReadOnceEach, AllDistinct;
      var front, e := entries[..|entries| - 1], entries[|entries| - 1];
      ReadNamesDistinct(a, front);
      ReadNamesAre(a, front);
      if Lead(a, e).Some? {
        DistinctSnoc(ReadNames(a, front), Lead(a, e).value);
      } else {
        assert ReadNames(a, front) + [] == ReadNames(a, front);
      }
      ReadOnceSnoc(a, front, e);
      assert entries == front + [e];
    }
  }

  lemma DistinctSnoc(names: seq<Text>, t: Text)
    ensures AllDistinct(names + [t]) <==> AllDistinct(names) && t !in names
  {
    var all := names + [t];
    assert forall i :: 0 <= i < |names| ==> all[i] == names[i];
    assert all[|names|] == t;
  }

  lemma ReadOnceSnoc(a: B.Archive, front: seq<B.Entry>, e: B.Entry)
    ensures ReadOnceEach(a, front + [e]) <==>
      ReadOnceEach(a, front) && (Lead(a, e).Some? ==> !LedTo(a, front, Lead(a, e).value))
  {
    hide Lead;
    var all := front + [e];
    assert forall i :: 0 <= i < |front| ==> all[i] == front[i];
    assert all[|front|] == e;
  }

  /**
   A pass reads no member twice if and only if the paths it reads are distinct and none of them is the
   manifest's own.
   */
  lemma OncePerMember(a: B.Archive, m: B.Manifest)
    requires ReadsManifest(a)
    ensures AllDistinct(VisitedNames(a, Some(m))) <==> ReadOnceEach(a, m.files) && !ListsManifest(a, m.files)
  {
    hide Lead, ReadOnceEach, ReadNames, LedTo;
    var names := ReadNames(a, m.files);
    ReadNamesAre(a, m.files);
    ReadNamesDistinct(a, m.files);
    DistinctCons(B.MANIFEST, names);
  }

  lemma DistinctCons(t: Text, names: seq<Text>)
    ensures AllDistinct([t] + names) <==> t !in names && AllDistinct(names)
  {
    var all := [t] + names;
    assert forall i :: 0 <= i < |names| ==> names[i] == all[i + 1];
    assert all[0] == t;
  }

  // ----- what it is charged -----

  function DeclaredOf(a: B.Archive, name: Text): nat {
    if name in B.Names(a.members) then B.Lookup(a.members, name).info.fileSize else 0
  }

  function ChargeOf(a: B.Archive, streams: Text -> seq<nat>, name: Text): nat {
    Charged(DeclaredOf(a, name), streams(name), 0)
  }

  function Charges(a: B.Archive, streams: Text -> seq<nat>, names: seq<Text>): nat {
    SumBy(names, (n: Text) => ChargeOf(a, streams, n))
  }

  function DeclaredBy(a: B.Archive, names: seq<Text>): nat {
    SumBy(names, (n: Text) => DeclaredOf(a, n))
  }

  lemma ChargesNext(a: B.Archive, streams: Text -> seq<nat>, names: seq<Text>, i: nat)
    requires i <= |names|
    ensures i == 0 ==> Charges(a, streams, names[..i]) == 0
    ensures i < |names| ==>
      Charges(a, streams, names[..i + 1]) == Charges(a, streams, names[..i]) + ChargeOf(a, streams, names[i])
  {
    SumNext(names, (n: Text) => ChargeOf(a, streams, n), i);
  }

  lemma {:induction false} ChargesGrow(a: B.Archive, streams: Text -> seq<nat>, names: seq<Text>, i: nat)
    requires i <= |names|
    ensures Charges(a, streams, names[..i]) <= Charges(a, streams, names)
    decreases |names| - i
  {
    if i < |names| {
      ChargesNext(a, streams, names, i);
      ChargesGrow(a, streams, names, i + 1);
    } else {
      assert names[..i] == names;
    }
  }

  /** Reads members in turn; a stream that is too long is an error of that member, not the end. */
  method ReadAll(b: Budget, a: B.Archive, streams: Text -> seq<nat>, names: seq<Text>) returns (ok: bool)
    requires b.Valid() && forall t :: t in names ==> t in B.Names(a.members)
    modifies b
    ensures b.Valid()
    ensures ok <==> old(b.work) + Charges(a, streams, names) <= b.maxWork
    ensures ok ==> b.work == old(b.work) + Charges(a, streams, names)
  {
    hide Charges, Charged, Total;
    ChargesNext(a, streams, names, 0);
    for i := 0 to |names|
      invariant b.Valid() && b.work == old(b.work) + Charges(a, streams, names[..i])
    {
      ChargesNext(a, streams, names, i);
      assert names[i] in names;
      var r := b.ReadMember(B.Lookup(a.members, names[i]).info.fileSize, streams(names[i]));
      if r == OverBudget {
        ChargesGrow(a, streams, names, i + 1);
        return false;
      }
    }
    assert names[..|names|] == names;
    return true;
  }

  /** What extraction is charged: it gives up at the first member that has not the declared size. */
  function ExtractionCharges(a: B.Archive, chunks: Text -> seq<nat>, names: seq<Text>): nat {
    if names == [] then 0
    else
      ChargeOf(a, chunks, names[0]) +
      if Total(chunks(names[0])) != DeclaredOf(a, names[0]) then 0 else ExtractionCharges(a, chunks, names[1..])
  }

  method ExtractAll(b: Budget, a: B.Archive, chunks: Text -> seq<nat>, names: seq<Text>) returns (ok: bool)
    requires b.Valid() && forall t :: t in names ==> t in B.Names(a.members)
    modifies b
    ensures b.Valid()
    ensures ok <==> old(b.work) + ExtractionCharges(a, chunks, names) <= b.maxWork
    ensures ok ==> b.work == old(b.work) + ExtractionCharges(a, chunks, names)
  {
    hide Charged, Total;
    assert names[0..] == names;
    for i := 0 to |names|
      invariant b.Valid() && b.work >= old(b.work)
      invariant b.work + ExtractionCharges(a, chunks, names[i..]) == old(b.work) + ExtractionCharges(a, chunks, names)
    {
      assert names[i] in names && names[i..][1..] == names[i + 1..];
      var declared := B.Lookup(a.members, names[i]).info.fileSize;
      var r := b.ReadMember(declared, chunks(names[i]));
      if r == OverBudget {
        return false;
      }
      if Total(chunks(names[i])) != declared {
        return true;
      }
    }
    return true;
  }

  /** The byte work of one pass. */
  function WorkOf(
    fileSize: nat, a: B.Archive, manifest: Option<B.Manifest>, extracted: bool,
    streams: Text -> seq<nat>, chunks: Text -> seq<nat>): nat
  {
    2 * fileSize
    + Charges(a, streams, VisitedNames(a, manifest))
    + if extracted && manifest.Some? then ExtractionCharges(a, chunks, ReadNames(a, manifest.value.files)) else 0
  }

  /**
   All the bytes of one pass: the archive hashed, the manifest and the members its entries lead to
   read, the members extracted if the embedded root is verified and nothing was reported, and the
   archive hashed again. The budget holds exactly if all this comes to no more than the allowance.
   */
  method VerificationPass(
    fileSize: nat, a: B.Archive, maxExpanded: nat, embedded: bool, manifest: Option<B.Manifest>, clean: bool,
    streams: Text -> seq<nat>, chunks: Text -> seq<nat>) returns (withinBudget: bool)
    ensures withinBudget <==>
      WorkOf(fileSize, a, manifest, embedded && clean, streams, chunks) <= Allowance(fileSize, maxExpanded, embedded)
  {
    hide Charges, ExtractionCharges, ReadNames;
    var b := new Budget(fileSize, maxExpanded, embedded);
    withinBudget := b.HashArchive(fileSize);
    if !withinBudget {
      return;
    }
    withinBudget := ReadAll(b, a, streams, VisitedNames(a, manifest));
    if !withinBudget {
      return;
    }
    if embedded && clean && manifest.Some? {
      withinBudget := ExtractAll(b, a, chunks, ReadNames(a, manifest.value.files));
      if !withinBudget {
        return;
      }
    }
    withinBudget := b.HashArchive(fileSize);
  }

  // ----- when the allowance suffices -----

  lemma {:induction false} RemoveOne<T>(items: seq<T>, size: T -> nat, p: nat)
    requires p < |items|
    ensures SumBy(items, size) == size(items[p]) + SumBy(items[..p] + items[p + 1..], size)
  {
    var n := |items| - 1;
    if p < n {
      var front := items[..n];
      RemoveOne(front, size, p);
      assert front[..p] == items[..p] && front[p + 1..] + [items[n]] == items[p + 1..];
      assert front[..p] + front[p + 1..] + [items[n]] == items[..p] + items[p + 1..];
      SumSnoc(front[..p] + front[p + 1..], size, items[n]);
    } else {
      assert items[..p] + items[p + 1..] == items[..n];
    }
  }

  function Infos(members: seq<B.Member>): (infos: seq<ZipInfo>)
    ensures |infos| == |members| && forall i :: 0 <= i < |members| ==> infos[i] == members[i].info
  {
    seq(|members|, i requires 0 <= i < |members| => members[i].info)
  }

  function ExpandedBy(a: B.Archive): nat {
    Expanded(Infos(a.members))
  }

  lemma ExpandedSnoc(a: B.Archive, last: B.Member)
    ensures ExpandedBy(a.(members := a.members + [last])) == ExpandedBy(a) + last.info.fileSize
  {
    SumSnoc(Infos(a.members), (i: ZipInfo) => i.fileSize, last.info);
    assert Infos(a.members + [last]) == Infos(a.members) + [last.info];
  }

  lemma LookupSnoc(members: seq<B.Member>, last: B.Member, name: Text)
    requires name in B.Names(members + [last])
    ensures name != last.Name() ==>
      name in B.Names(members) && B.Lookup(members + [last], name) == B.Lookup(members, name)
    ensures name == last.Name() ==> B.Lookup(members + [last], name) == last
  {
    assert (members + [last])[..|members|] == members;
    assert B.Names(members + [last]) == B.Names(members) + [last.Name()];
  }

  lemma {:induction false} SameDeclared(a: B.Archive, last: B.Member, names: seq<Text>)
    requires last.Name() !in names && forall t :: t in names ==> t in B.Names(a.members + [last])
    ensures DeclaredBy(a.(members := a.members + [last]), names) == DeclaredBy(a, names)
    ensures forall t :: t in names ==> t in B.Names(a.members)
  {
    if names != [] {
      var n := |names| - 1;
      assert names[n] in names;
      SameDeclared(a, last, names[..n]);
      LookupSnoc(a.members, last, names[n]);
    }
  }

  ghost predicate AllRead(a: B.Archive, names: seq<Text>) {
    forall t :: t in B.Names(a.members) ==> t in names
  }

  /**
   Reading each member at most once declares no more than the archive does, and as much if every
   member is read and their names are distinct.
   */
  lemma {:induction false} OnceEachFits(a: B.Archive, names: seq<Text>)
    requires AllDistinct(names) && forall t :: t in names ==> t in B.Names(a.members)
    ensures DeclaredBy(a, names) <= ExpandedBy(a)
    ensures AllRead(a, names) && AllDistinct(B.Names(a.members)) ==> DeclaredBy(a, names) == ExpandedBy(a)
    decreases |a.members|
  {
    hide SumBy, DeclaredOf, ExpandedBy, AllRead, AllDistinct, B.Names, B.Lookup;
    assert names != [] ==> names[0] in names;
    if a.members == [] {
      SumNext(names, (n: Text) => DeclaredOf(a, n), 0);
      assert names[..0] == names;
      NothingExpanded(a);
    } else {
      var n := |a.members| - 1;
      var front, last := a.(members := a.members[..n]), a.members[n];
      assert a.members == front.members + [last] && a == front.(members := front.members + [last]);
      ExpandedSnoc(front, last);
      FrontNames(front, last);
      if p :| 0 <= p < |names| && names[p] == last.Name() {
        var rest := names[..p] + names[p + 1..];
        Without(names, p);
        SameDeclared(front, last, rest);
        OnceEachFits(front, rest);
        RemoveOne(names, (n: Text) => DeclaredOf(a, n), p);
        LookupSnoc(front.members, last, names[p]);
        DeclaredIs(a, names[p]);
        WithoutCovers(front, last, names, p);
      } else {
        SameDeclared(front, last, names);
        OnceEachFits(front, names);
        NotAllRead(front, last, names);
      }
    }
  }

  lemma NotAllRead(front: B.Archive, last: B.Member, names: seq<Text>)
    requires last.Name() !in names
    ensures !AllRead(front.(members := front.members + [last]), names)
  {
    FrontNames(front, last);
  }

  lemma NothingExpanded(a: B.Archive)
    requires a.members == []
    ensures ExpandedBy(a) == 0
  {
  }

  lemma FrontNames(front: B.Archive, last: B.Member)
    ensures B.Names(front.members + [last]) == B.Names(front.members) + [last.Name()]
    ensures AllDistinct(B.Names(front.members + [last])) <==>
      AllDistinct(B.Names(front.members)) && last.Name() !in B.Names(front.members)
  {
    DistinctSnoc(B.Names(front.members), last.Name());
    assert B.Names(front.members + [last]) == B.Names(front.members) + [last.Name()];
  }

  lemma DeclaredIs(a: B.Archive, name: Text)
    requires name in B.Names(a.members)
    ensures DeclaredOf(a, name) == B.Lookup(a.members, name).info.fileSize
  {
  }

  lemma Without(names: seq<Text>, p: nat)
    requires p < |names| && AllDistinct(names)
    ensures var rest := names[..p] + names[p + 1..];
      AllDistinct(rest) && forall t :: t in rest <==> t in names && t != names[p]
  {
    var rest := names[..p] + names[p + 1..];
    assert forall i :: 0 <= i < |rest| ==> rest[i] == names[if i < p then i else i + 1];
    forall t | t in names && t != names[p] ensures t in rest {
      var i :| 0 <= i < |names| && names[i] == t;
      assert rest[if i < p then i else i - 1] == t;
    }
  }

  lemma WithoutCovers(front: B.Archive, last: B.Member, names: seq<Text>, p: nat)
    requires p < |names| && AllDistinct(names) && names[p] == last.Name()
    ensures
      AllRead(front.(members := front.members + [last]), names) && AllDistinct(B.Names(front.members + [last])) ==>
      AllRead(front, names[..p] + names[p + 1..])
  {
    Without(names, p);
    FrontNames(front, last);
  }

  lemma {:induction false} ChargesWithin(a: B.Archive, streams: Text -> seq<nat>, names: seq<Text>)
    ensures Charges(a, streams, names) <= DeclaredBy(a, names)
    ensures (forall t :: t in names ==> Total(streams(t)) == DeclaredOf(a, t)) ==>
      Charges(a, streams, names) == DeclaredBy(a, names)
  {
    hide DeclaredOf, Charged, Total;
    if names != [] {
      var n := |names| - 1;
      ChargesWithin(a, streams, names[..n]);
      ChargedWithin(DeclaredOf(a, names[n]), streams(names[n]), 0);
      if Total(streams(names[n])) == DeclaredOf(a, names[n]) {
        ChargedWhole(DeclaredOf(a, names[n]), streams(names[n]), 0);
      }
      assert names[n] in names;
    }
  }

  lemma {:induction false} ExtractionWithin(a: B.Archive, chunks: Text -> seq<nat>, names: seq<Text>)
    ensures ExtractionCharges(a, chunks, names) <= DeclaredBy(a, names)
  {
    hide DeclaredOf, Charged, Total;
    if names != [] {
      ExtractionWithin(a, chunks, names[1..]);
      ChargedWithin(DeclaredOf(a, names[0]), chunks(names[0]), 0);
      SumCons(names, (n: Text) => DeclaredOf(a, n));
    }
  }

  lemma VisitsSplit(a: B.Archive, streams: Text -> seq<nat>, m: B.Manifest)
    requires ReadsManifest(a)
    ensures Charges(a, streams, VisitedNames(a, Some(m))) ==
      ChargeOf(a, streams, B.MANIFEST) + Charges(a, streams, ReadNames(a, m.files))
  {
    hide ReadNames, ChargeOf;
    var all := VisitedNames(a, Some(m));
    SumCons(all, (n: Text) => ChargeOf(a, streams, n));
    assert all[1..] == ReadNames(a, m.files);
  }

  /**
   Within the limit on expanded bytes the allowance suffices, if the paths that are read are distinct
   and none of them is the manifest's own, unless that is no larger than one chunk.
   */
  lemma DistinctPathsFit(
    fileSize: nat, a: B.Archive, maxExpanded: nat, embedded: bool, m: B.Manifest, clean: bool,
    streams: Text -> seq<nat>, chunks: Text -> seq<nat>)
    requires ExpandedBy(a) <= maxExpanded && ReadOnceEach(a, m.files)
    requires !ListsManifest(a, m.files) || DeclaredOf(a, B.MANIFEST) <= IO_CHUNK_BYTES
    ensures WorkOf(fileSize, a, Some(m), embedded && clean, streams, chunks) <=
      Allowance(fileSize, maxExpanded, embedded)
  {
    hide Charges, DeclaredBy, ExpandedBy, ReadOnceEach, ReadNames, ExtractionCharges, ListsManifest, DeclaredOf,
      Charged;
    var names := ReadNames(a, m.files);
    ReadNamesDistinct(a, m.files);
    OnceEachFits(a, names);
    ChargesWithin(a, streams, names);
    ExtractionWithin(a, chunks, names);
    NoVisits(a, streams);
    if ReadsManifest(a) {
      if !ListsManifest(a, m.files) {
        OncePerMember(a, m);
        OnceEachFits(a, VisitedNames(a, Some(m)));
        ChargesWithin(a, streams, VisitedNames(a, Some(m)));
      } else {
        VisitsSplit(a, streams, m);
        ChargedWithin(DeclaredOf(a, B.MANIFEST), streams(B.MANIFEST), 0);
      }
    }
  }

  lemma NoVisits(a: B.Archive, streams: Text -> seq<nat>)
    ensures Charges(a, streams, []) == 0
  {
  }

  /**
   A manifest that lists itself is read twice. When every member is read, and in full, a pass under a
   limit that is just met goes over its budget exactly if the manifest is larger than one chunk.
   */
  lemma SelfListingCosts(
    fileSize: nat, a: B.Archive, m: B.Manifest, streams: Text -> seq<nat>, chunks: Text -> seq<nat>)
    requires ReadsManifest(a) && AllDistinct(B.Names(a.members))
    requires ReadOnceEach(a, m.files) && ListsManifest(a, m.files) && AllRead(a, ReadNames(a, m.files))
    requires forall t :: t in B.Names(a.members) ==> Total(streams(t)) == DeclaredOf(a, t)
    ensures WorkOf(fileSize, a, Some(m), false, streams, chunks) <= Allowance(fileSize, ExpandedBy(a), false) <==>
      DeclaredOf(a, B.MANIFEST) <= IO_CHUNK_BYTES
  {
    hide Charges, DeclaredBy, ExpandedBy, ReadOnceEach, ReadNames, ListsManifest, DeclaredOf, Charged, Total, AllRead;
    var names := ReadNames(a, m.files);
    ReadNamesDistinct(a, m.files);
    OnceEachFits(a, names);
    ChargesWithin(a, streams, names);
    VisitsSplit(a, streams, m);
    assert B.MANIFEST in multiset(B.Names(a.members));
    ChargedWhole(DeclaredOf(a, B.MANIFEST), streams(B.MANIFEST), 0);
  }

  // ----- a pass that exceeds its budget -----

  const SELF: Text := TextOf("bundle.manifest.json")

  /** A bundle of nothing but a manifest of `size` bytes. */
  function SelfArchive(size: nat): B.Archive {
    var info := ZipInfo(
      B.MANIFEST, 0, DEFLATED, 0, 2, size, 0, 3, 20, 20, 0, 0x81A4_0000, [1980, 1, 1, 0, 0, 0], 0);
    B.Archive([B.Member(info, B.Read([], size))], t => true, t => t)
  }

  /** A manifest whose one entry is the manifest's own. */
  function SelfManifest(size: nat, digest: bytes): B.Manifest {
    B.Manifest([B.Entry(SELF, Some(digest), Some(size), Some(B.MANIFEST_MODE))], Some(1), Some(size))
  }

  lemma SelfNames(size: nat)
    ensures var a := SelfArchive(size);
      && B.Names(a.members) == [B.MANIFEST] && B.CountOf(a, B.MANIFEST) == 1
      && DeclaredOf(a, B.MANIFEST) == size && ExpandedBy(a) == size
  {
    hide TextOf;
    var a := SelfArchive(size);
    assert B.Names(a.members) == [B.MANIFEST];
    assert B.Lookup(a.members, B.MANIFEST) == a.members[0];
    NothingExpanded(a.(members := []));
    ExpandedSnoc(a.(members := []), a.members[0]);
    assert [] + [a.members[0]] == a.members;
  }

  lemma SelfLeadsBack(size: nat, digest: bytes)
    ensures Lead(SelfArchive(size), SelfManifest(size, digest).files[0]) == Some(B.MANIFEST)
  {
    SelfNames(size);
    assert B.ROOT[0] == 'e' as int && SELF[0] == 'b' as int;
    hide TextOf;
  }

  /** It reads its manifest twice, which is over budget as soon as that is larger than one chunk. */
  lemma SelfListingExceeds(
    fileSize: nat, size: nat, digest: bytes, streams: Text -> seq<nat>, chunks: Text -> seq<nat>)
    requires IO_CHUNK_BYTES < size <= B.MANIFEST_MAX_BYTES && Total(streams(B.MANIFEST)) == size
    ensures var a, m := SelfArchive(size), SelfManifest(size, digest);
      && ExpandedBy(a) == size
      && WorkOf(fileSize, a, Some(m), false, streams, chunks) > Allowance(fileSize, size, false)
  {
    hide TextOf, SelfArchive, DeclaredOf, ExpandedBy, Total, Lead, WorkOf;
    SelfNames(size);
    SelfLeadsBack(size, digest);
    var a, m := SelfArchive(size), SelfManifest(size, digest);
    assert m.files[..0] == [] && ReadNames(a, m.files) == ReadNames(a, []) + [B.MANIFEST];
    SelfListingCosts(fileSize, a, m, streams, chunks);
  }
}

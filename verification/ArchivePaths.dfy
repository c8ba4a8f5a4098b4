/**
 Names of release archive members: the builder's and the finalizer's path checks, and what they
 guarantee to whoever extracts the archive on a case-folding filesystem.
 */
module ArchivePaths {
  import opened Utf8

  /**
   The Unicode facts the checks rest on: `fold` is NFC and case folding of one component, and
   `portable` the per-component rules (length, reserved names, forbidden characters), which the
   two scripts spell alike.
   */
  datatype Unicode = Unicode(fold: Text -> Text, portable: Text -> bool)

  const SLASH: CodePoint := 0x2F
  const BACKSLASH: CodePoint := 0x5C

  type Path = seq<Text>

  /** `text.split("/")`. */
  function Split(s: Text): (parts: Path)
    ensures parts != []
  {
    if s == [] then [[]]
    else
      var rest := Split(s[1..]);
      if s[0] == SLASH then [[]] + rest else [[s[0]] + rest[0]] + rest[1..]
  }

  function Join(parts: Path): Text {
    if parts == [] then []
    else if |parts| == 1 then parts[0]
    else parts[0] + [SLASH] + Join(parts[1..])
  }

  lemma {:induction false} JoinOfSplit(s: Text)
    ensures Join(Split(s)) == s
  {
    if s != [] {
      JoinOfSplit(s[1..]);
      var rest := Split(s[1..]);
      if s[0] == SLASH {
        assert ([[]] + rest)[1..] == rest;
      } else {
        var parts := [[s[0]] + rest[0]] + rest[1..];
        assert parts[1..] == rest[1..];
        assert Join(parts) == [s[0]] + Join(rest);
      }
    }
  }

  /** A member name taken apart. */
  datatype Member = Member(parts: Path, isDirectory: bool)

  function BareName(name: Text): Text {
    if EndsWithSlash(name) then name[..|name| - 1] else name
  }

  predicate EndsWithSlash(name: Text) {
    name != [] && name[|name| - 1] == SLASH
  }

  predicate IsLegalPart(part: Text) {
    part != [] && part != [0x2E] && part != [0x2E, 0x2E]
  }

  /** `_archive_path_parts` and `_archive_member_parts`. */
  function MemberParts(u: Unicode, name: Text): Option<Member> {
    var candidate := BareName(name);
    var parts := Split(candidate);
    if candidate == [] || name[0] == SLASH || BACKSLASH in name || exists p :: p in parts && !IsLegalPart(p)
    then None
    else if exists p :: p in parts && !u.portable(p) then None
    else Some(Member(parts, EndsWithSlash(name)))
  }

  /** A name is known from its parts and its kind. */
  lemma MemberDeterminesName(u: Unicode, name: Text)
    requires MemberParts(u, name).Some?
    ensures var m := MemberParts(u, name).value;
      name == Join(m.parts) + if m.isDirectory then [SLASH] else []
  {
    JoinOfSplit(BareName(name));
    if EndsWithSlash(name) {
      assert name == name[..|name| - 1] + [SLASH];
    }
  }

  /** A path prefix some member needs, as a directory or as a file. */
  datatype Entry = Entry(path: Path, isDirectory: bool)

  function Key(u: Unicode, path: Path): (key: Path)
    ensures |key| == |path|
    ensures forall i :: 0 <= i < |path| ==> key[i] == u.fold(path[i])
  {
    seq(|path|, i requires 0 <= i < |path| => u.fold(path[i]))
  }

  function EntryAt(m: Member, depth: nat): Entry
    requires 1 <= depth <= |m.parts|
  {
    Entry(m.parts[..depth], depth < |m.parts| || m.isDirectory)
  }

  predicate IsEntryOf(e: Entry, m: Member) {
    1 <= |e.path| <= |m.parts| && e == EntryAt(m, |e.path|)
  }

  ghost predicate Needed(e: Entry, members: seq<Member>) {
    exists m :: m in members && IsEntryOf(e, m)
  }

  /** No two prefixes that a folding filesystem identifies differ in spelling or in kind. */
  ghost predicate Consistent(u: Unicode, members: seq<Member>) {
    forall e, f :: Needed(e, members) && Needed(f, members) && Key(u, e.path) == Key(u, f.path) ==> e == f
  }

  ghost predicate DistinctPaths(members: seq<Member>) {
    forall i, j :: 0 <= i < j < |members| ==> members[i].parts != members[j].parts
  }

  /** The member a name stands for, with directories also recognised by a given set of names. */
  function MemberOf(u: Unicode, name: Text, directories: set<Text>): Option<Member> {
    match MemberParts(u, name)
    case None => None
    case Some(m) => Some(Member(m.parts, m.isDirectory || name in directories))
  }

  ghost predicate AllLegal(u: Unicode, names: seq<Text>) {
    forall i :: 0 <= i < |names| ==> MemberParts(u, names[i]).Some?
  }

  function Members(u: Unicode, names: seq<Text>, directories: set<Text>): (members: seq<Member>)
    requires AllLegal(u, names)
    ensures |members| == |names|
    ensures forall i :: 0 <= i < |names| ==> members[i] == MemberOf(u, names[i], directories).value
  {
    seq(|names|, i requires 0 <= i < |names| => MemberOf(u, names[i], directories).value)
  }

  /** What the prefix table holds for the entries entered so far. */
  ghost predicate TableOf(u: Unicode, table: map<Path, Entry>, entered: iset<Entry>) {
    && (forall e :: e in entered ==> Key(u, e.path) in table && table[Key(u, e.path)] == e)
    && (forall k :: k in table ==> table[k] in entered && Key(u, table[k].path) == k)
  }

  /** An entry of `m` that meets a different entry under its key. */
  ghost predicate Clash(u: Unicode, entered: iset<Entry>, m: Member, e: Entry, f: Entry) {
    && e in entered + (iset x | IsEntryOf(x, m))
    && IsEntryOf(f, m)
    && Key(u, e.path) == Key(u, f.path)
    && e != f
  }

  /** Enters the prefixes of one member; `ok` is false on the first collision or kind conflict. */
  method EnterMember(u: Unicode, table: map<Path, Entry>, m: Member, ghost entered: iset<Entry>)
    returns (ok: bool, next: map<Path, Entry>)
    requires TableOf(u, table, entered)
    ensures ok ==> TableOf(u, next, entered + iset e | IsEntryOf(e, m))
    ensures !ok ==> exists e, f :: Clash(u, entered, m, e, f)
  {
    hide Key;
    next := table;
    ok := true;
    ghost var all := entered;
    for depth := 1 to |m.parts| + 1
      invariant TableOf(u, next, all)
      invariant all == entered + iset e | IsEntryOf(e, m) && |e.path| < depth
    {
      var e := EntryAt(m, depth);
      var key := Key(u, e.path);
      assert IsEntryOf(e, m);
      if key in next && next[key] != e {
        assert Clash(u, entered, m, next[key], e);
        return false, next;
      }
      next := next[key := e];
      ghost var before := all;
      all := all + iset{e};
      forall x | IsEntryOf(x, m) && |x.path| < depth + 1 ensures x in all {
        if |x.path| == depth {
          assert x == e;
        }
      }
    }
  }

  ghost function Entered(members: seq<Member>): iset<Entry> {
    iset e | Needed(e, members)
  }

  lemma EnteredNext(members: seq<Member>, m: Member)
    ensures Entered(members + [m]) == Entered(members) + iset e | IsEntryOf(e, m)
  {
    assert forall x :: x in members + [m] <==> x in members || x == m;
  }

  /** A table over all entries can exist only when they are consistent. */
  lemma TableMeansConsistent(u: Unicode, table: map<Path, Entry>, members: seq<Member>)
    requires TableOf(u, table, Entered(members))
    ensures Consistent(u, members)
  {
    hide Key;
    forall e, f | Needed(e, members) && Needed(f, members) && Key(u, e.path) == Key(u, f.path) ensures e == f {
      assert e in Entered(members) && f in Entered(members);
    }
  }

  lemma PrefixConsistent(u: Unicode, members: seq<Member>, n: nat)
    requires n <= |members| && Consistent(u, members)
    ensures Consistent(u, members[..n])
  {
    hide Key;
    assert forall e :: Needed(e, members[..n]) ==> Needed(e, members);
  }

  /** What the finalizer demands of a name list. */
  ghost predicate Portable(u: Unicode, names: seq<Text>, directories: set<Text>) {
    && AllLegal(u, names)
    && DistinctPaths(Members(u, names, directories))
    && Consistent(u, Members(u, names, directories))
  }

  /** What the builder demands: distinct names instead of distinct logical paths. */
  ghost predicate Buildable(u: Unicode, names: seq<Text>) {
    && AllLegal(u, names)
    && (forall i, j :: 0 <= i < j < |names| ==> names[i] != names[j])
    && Consistent(u, Members(u, names, {}))
  }

  /** `_assert_canonical_archive_paths` of the builder: the prefix table alone. */
  method BuilderTable(u: Unicode, names: seq<Text>) returns (ok: bool)
    ensures ok <==> AllLegal(u, names) && Consistent(u, Members(u, names, {}))
  {
    hide Key, Consistent, TableOf, MemberParts;
    var table: map<Path, Entry> := map[];
    ghost var seen: seq<Member> := [];
    assert TableOf(u, table, Entered(seen)) by {
      EmptyTable(u);
    }
    for i := 0 to |names|
      invariant AllLegal(u, names[..i])
      invariant seen == Members(u, names[..i], {})
      invariant TableOf(u, table, Entered(seen))
    {
      var m := MemberParts(u, names[i]);
      if m.None? {
        assert !AllLegal(u, names);
        return false;
      }
      MembersNext(u, names, i, {});
      EnteredNext(seen, m.value);
      ok, table := EnterMember(u, table, m.value, Entered(seen));
      if !ok {
        CollisionIsInconsistent(u, seen, m.value);
        if AllLegal(u, names) {
          MembersPrefix(u, names, i + 1, {});
          if Consistent(u, Members(u, names, {})) {
            PrefixConsistent(u, Members(u, names, {}), i + 1);
          }
        }
        return false;
      }
      seen := seen + [m.value];
    }
    assert names[..|names|] == names;
    TableMeansConsistent(u, table, seen);
    return true;
  }

  lemma EmptyTable(u: Unicode)
    ensures TableOf(u, map[], Entered([]))
  {
  }

  lemma CollisionIsInconsistent(u: Unicode, seen: seq<Member>, m: Member)
    requires exists e, f :: Clash(u, Entered(seen), m, e, f)
    ensures !Consistent(u, seen + [m])
  {
    hide Key;
    var e, f :| Clash(u, Entered(seen), m, e, f);
    EnteredNext(seen, m);
    assert m in seen + [m];
    assert e in Entered(seen + [m]) && f in Entered(seen + [m]);
  }

  lemma MembersNext(u: Unicode, names: seq<Text>, i: nat, directories: set<Text>)
    requires i < |names| && AllLegal(u, names[..i]) && MemberParts(u, names[i]).Some?
    ensures AllLegal(u, names[..i + 1])
    ensures Members(u, names[..i + 1], directories) ==
      Members(u, names[..i], directories) + [MemberOf(u, names[i], directories).value]
    ensures directories == {} ==> MemberOf(u, names[i], directories) == MemberParts(u, names[i])
  {
    hide MemberParts;
    assert names[..i + 1] == names[..i] + [names[i]];
  }

  lemma MembersPrefix(u: Unicode, names: seq<Text>, n: nat, directories: set<Text>)
    requires n <= |names| && AllLegal(u, names)
    ensures AllLegal(u, names[..n])
    ensures Members(u, names[..n], directories) == Members(u, names, directories)[..n]
  {
    hide MemberParts;
  }

  /** A list stays portable when it is cut short, so a bad prefix condemns the whole list. */
  lemma PrefixPortable(u: Unicode, names: seq<Text>, n: nat, directories: set<Text>)
    requires n <= |names|
    ensures Portable(u, names, directories) ==> Portable(u, names[..n], directories)
  {
    hide Consistent, MemberParts;
    if Portable(u, names, directories) {
      MembersPrefix(u, names, n, directories);
      PrefixConsistent(u, Members(u, names, directories), n);
    }
  }

  /** `_assert_unique_arcnames`: what the builder accepts, exactly. */
  method AssertUniqueArcnames(u: Unicode, names: seq<Text>) returns (ok: bool)
    ensures ok <==> Buildable(u, names)
  {
    hide Consistent, MemberParts, Members;
    var seen: set<Text> := {};
    var duplicates: set<Text> := {};
    for i := 0 to |names|
      invariant forall t :: t in seen <==> t in names[..i]
      invariant duplicates == {} <==> forall j, k :: 0 <= j < k < i ==> names[j] != names[k]
    {
      if names[i] in seen {
        duplicates := duplicates + {names[i]};
      }
      seen := seen + {names[i]};
      assert names[..i + 1] == names[..i] + [names[i]];
    }
    if duplicates != {} {
      return false;
    }
    ok := BuilderTable(u, names);
  }

  /** `_assert_canonical_archive_paths` of the finalizer: what it accepts, exactly. */
  method FinalizerPaths(u: Unicode, names: seq<Text>, directories: set<Text>) returns (ok: bool)
    ensures ok <==> Portable(u, names, directories)
  {
    hide Key, Consistent, TableOf, MemberParts;
    var table: map<Path, Entry> := map[];
    var explicitPaths: set<Path> := {};
    ghost var seen: seq<Member> := [];
    assert TableOf(u, table, Entered(seen)) by {
      EmptyTable(u);
    }
    for i := 0 to |names|
      invariant AllLegal(u, names[..i])
      invariant seen == Members(u, names[..i], directories)
      invariant DistinctPaths(seen)
      invariant forall p :: p in explicitPaths <==> exists j :: 0 <= j < |seen| && seen[j].parts == p
      invariant TableOf(u, table, Entered(seen))
    {
      var known := MemberParts(u, names[i]);
      if known.None? {
        assert !AllLegal(u, names);
        return false;
      }
      MembersNext(u, names, i, directories);
      var m := MemberOf(u, names[i], directories).value;
      assert m.parts == known.value.parts;
      ghost var next := seen + [m];
      assert next[|seen|] == m;
      if known.value.parts in explicitPaths {
        PrefixPortable(u, names, i + 1, directories);
        return false;
      }
      explicitPaths := explicitPaths + {known.value.parts};
      EnteredNext(seen, m);
      ok, table := EnterMember(u, table, m, Entered(seen));
      if !ok {
        CollisionIsInconsistent(u, seen, m);
        PrefixPortable(u, names, i + 1, directories);
        return false;
      }
      assert forall j :: 0 <= j < |seen| ==> next[j] == seen[j];
      seen := next;
    }
    assert names[..|names|] == names;
    TableMeansConsistent(u, table, seen);
    return true;
  }

  /**
   Every list the builder accepts, the finalizer accepts too, although it also refuses equal
   logical paths: two names of one logical path would have to differ in kind alone.
   */
  lemma BuilderImpliesFinalizer(u: Unicode, names: seq<Text>, directories: set<Text>)
    requires Buildable(u, names)
    requires forall d :: d in directories ==> EndsWithSlash(d)
    ensures Portable(u, names, directories)
  {
    hide Key, Consistent;
    var members := Members(u, names, directories);
    forall i | 0 <= i < |names| ensures members[i] == Members(u, names, {})[i] {
      assert MemberParts(u, names[i]).Some?;
    }
    assert members == Members(u, names, {});
    forall i, j | 0 <= i < j < |members| ensures members[i].parts != members[j].parts {
      if members[i].parts == members[j].parts {
        OneMemberPerKey(u, members, i, j);
        MemberDeterminesName(u, names[i]);
        MemberDeterminesName(u, names[j]);
        assert false;
      }
    }
  }

  /** Members of an accepted list stay apart even where letter case does not count. */
  lemma OneMemberPerKey(u: Unicode, members: seq<Member>, i: nat, j: nat)
    requires i < |members| && j < |members| && Consistent(u, members)
    requires members[i].parts != [] && Key(u, members[i].parts) == Key(u, members[j].parts)
    ensures members[i] == members[j]
  {
    hide Key;
    var e, f := EntryAt(members[i], |members[i].parts|), EntryAt(members[j], |members[j].parts|);
    assert IsEntryOf(e, members[i]) && IsEntryOf(f, members[j]);
    assert Needed(e, members) && Needed(f, members);
    assert e == f;
  }

  // The order of the names does not matter

  lemma {:induction false} TwiceMeansTwoIndices<T>(s: seq<T>, x: T) returns (i: nat, j: nat)
    requires multiset(s)[x] >= 2
    ensures i < j < |s| && s[i] == x && s[j] == x
  {
    var n := |s| - 1;
    assert s == s[..n] + [s[n]];
    if s[n] == x {
      assert multiset(s[..n])[x] >= 1;
      assert x in s[..n];
      i :| 0 <= i < n && s[i] == x;
      j := n;
    } else {
      i, j := TwiceMeansTwoIndices(s[..n], x);
    }
  }

  lemma TwoIndicesMeanTwice<T>(s: seq<T>, i: nat, j: nat)
    requires i < j < |s| && s[i] == s[j]
    ensures multiset(s)[s[i]] >= 2
  {
    assert s == s[..j] + s[j..];
    assert s[..j][i] == s[i] && s[j..][0] == s[i];
    assert s[i] in multiset(s[..j]) && s[i] in multiset(s[j..]);
  }

  /** What makes a list portable is a matter of which names it has, not of their order. */
  lemma PortableIsOrderFree(u: Unicode, names: seq<Text>, others: seq<Text>, directories: set<Text>)
    requires multiset(names) == multiset(others) && Portable(u, names, directories)
    ensures Portable(u, others, directories)
  {
    hide Key, Consistent, MemberParts;
    forall i | 0 <= i < |others| ensures MemberParts(u, others[i]).Some? && others[i] in names {
      assert others[i] in multiset(others);
    }
    var members, reordered := Members(u, names, directories), Members(u, others, directories);
    forall i, j | 0 <= i < j < |others| ensures reordered[i].parts != reordered[j].parts {
      var a: nat, b: nat;
      if others[i] == others[j] {
        TwoIndicesMeanTwice(others, i, j);
        a, b := TwiceMeansTwoIndices(names, others[i]);
      } else {
        a :| 0 <= a < |names| && names[a] == others[i];
        b :| 0 <= b < |names| && names[b] == others[j];
      }
      assert members[a] == reordered[i] && members[b] == reordered[j];
    }
    SameMembersConsistent(u, members, reordered);
  }

  lemma SameMembersConsistent(u: Unicode, members: seq<Member>, others: seq<Member>)
    requires Consistent(u, members) && forall i :: 0 <= i < |others| ==> others[i] in members
    ensures Consistent(u, others)
  {
    hide Key;
    assert forall e :: Needed(e, others) ==> Needed(e, members);
  }
}

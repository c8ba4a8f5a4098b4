/**
 Extraction of the source archive into an empty directory of a case-folding filesystem
 (finalize_release_distributions.py, `_extract_canonical_source_tree`).
 */
module ArchiveExtraction {
  import opened ArchivePaths
  import opened Struct
  import opened Utf8

  /** A file or directory, with the path it was made under. */
  datatype Node = Directory(path: Path) | File(path: Path, data: bytes)

  function EntryOf(n: Node): Entry {
    Entry(n.path, n.Directory?)
  }

  /** The nodes as a table of entries, to compare with the table the path checks build. */
  function Entries(nodes: map<Path, Node>): map<Path, Entry> {
    map k | k in nodes :: EntryOf(nodes[k])
  }

  /** The nodes once `path` and everything above it exist. */
  function WithDirectories(u: Unicode, nodes: map<Path, Node>, path: Path): map<Path, Node> {
    if path == [] then nodes
    else
      var above := WithDirectories(u, nodes, path[..|path| - 1]);
      if Key(u, path) in above then above else above[Key(u, path) := Directory(path)]
  }

  /** A directory tree, empty at first, in which paths with the same key are the same path. */
  class Tree {
    const u: Unicode
    var nodes: map<Path, Node>

    constructor (u: Unicode)
      ensures this.u == u && nodes == map[]
    {
      this.u := u;
      nodes := map[];
    }

    /** Whether directories can be made down to `path`: no file stands in the way. */
    ghost predicate Passable(path: Path)
      reads this
    {
      forall n :: 1 <= n <= |path| && Key(u, path[..n]) in nodes ==> nodes[Key(u, path[..n])].Directory?
    }

    /** `mkdir(parents=True, exist_ok=True)`. */
    method MakeDirectories(path: Path) returns (ok: bool)
      modifies this
      ensures ok <==> old(Passable(path))
      ensures ok ==> nodes == WithDirectories(u, old(nodes), path)
    {
      hide Key, WithDirectories;
      ghost var before := nodes;
      NoDirectories(u, before);
      for n := 1 to |path| + 1
        invariant nodes == WithDirectories(u, before, path[..n - 1])
        invariant forall k :: 1 <= k < n && Key(u, path[..k]) in before ==> before[Key(u, path[..k])].Directory?
      {
        var here := path[..n];
        assert here[..n - 1] == path[..n - 1];
        var key := Key(u, here);
        LongerKey(u, before, path[..n - 1], key);
        OneMoreDirectory(u, before, here);
        if key in nodes {
          if nodes[key].File? {
            return false;
          }
        } else {
          nodes := nodes[key := Directory(here)];
        }
      }
      assert path[..|path|] == path;
      return true;
    }

    /** Opens `path` for exclusive creation and writes `data`. */
    method WriteNew(path: Path, data: bytes) returns (ok: bool)
      modifies this
      ensures ok <==> Key(u, path) !in old(nodes)
      ensures nodes == if ok then old(nodes)[Key(u, path) := File(path, data)] else old(nodes)
    {
      ok := Key(u, path) !in nodes;
      if ok {
        nodes := nodes[Key(u, path) := File(path, data)];
      }
    }
  }

  lemma NoDirectories(u: Unicode, nodes: map<Path, Node>)
    ensures WithDirectories(u, nodes, []) == nodes
  {
  }

  lemma OneMoreDirectory(u: Unicode, nodes: map<Path, Node>, path: Path)
    requires path != []
    ensures var above := WithDirectories(u, nodes, path[..|path| - 1]);
      WithDirectories(u, nodes, path) == if Key(u, path) in above then above else above[Key(u, path) := Directory(path)]
  {
  }

  /** Making directories keeps every node and adds directories on the path only. */
  ghost predicate Made(u: Unicode, nodes: map<Path, Node>, path: Path, made: map<Path, Node>) {
    && (forall k :: k in nodes ==> k in made && made[k] == nodes[k])
    && (forall k :: k in made && k !in nodes ==> IsMadeAt(u, path, k, made[k]))
    && (forall n :: 1 <= n <= |path| ==> Key(u, path[..n]) in made)
  }

  ghost predicate IsMadeAt(u: Unicode, path: Path, k: Path, n: Node) {
    1 <= |k| <= |path| && k == Key(u, path[..|k|]) && n == Directory(path[..|k|])
  }

  lemma MadeStep(u: Unicode, nodes: map<Path, Node>, up: Path, path: Path, above: map<Path, Node>)
    requires path != [] && up == path[..|path| - 1] && Made(u, nodes, up, above)
    ensures Made(u, nodes, path, if Key(u, path) in above then above else above[Key(u, path) := Directory(path)])
  {
    hide Key;
    var made := if Key(u, path) in above then above else above[Key(u, path) := Directory(path)];
    assert path[..|path|] == path;
    forall k | k in made && k !in nodes ensures IsMadeAt(u, path, k, made[k]) {
      if k in above {
        assert IsMadeAt(u, up, k, above[k]);
        assert up[..|k|] == path[..|k|];
      }
    }
    forall n | 1 <= n <= |path| ensures Key(u, path[..n]) in made {
      if n < |path| {
        assert up[..n] == path[..n];
      }
    }
  }

  lemma {:induction false} MadeKeys(u: Unicode, nodes: map<Path, Node>, path: Path)
    ensures Made(u, nodes, path, WithDirectories(u, nodes, path))
  {
    hide Key;
    if path != [] {
      hide Made;
      MadeKeys(u, nodes, path[..|path| - 1]);
      MadeStep(u, nodes, path[..|path| - 1], path, WithDirectories(u, nodes, path[..|path| - 1]));
    }
  }

  /** A longer key is met only if it was there before. */
  lemma LongerKey(u: Unicode, nodes: map<Path, Node>, path: Path, key: Path)
    requires |key| > |path|
    ensures key in WithDirectories(u, nodes, path) <==> key in nodes
    ensures key in nodes ==> WithDirectories(u, nodes, path)[key] == nodes[key]
  {
    hide Key, WithDirectories;
    MadeKeys(u, nodes, path);
  }

  // Names below the archive root

  function DirectoryNames(names: seq<Text>): set<Text> {
    set t | t in names && EndsWithSlash(t)
  }

  /** Every name is the root directory's or lies under it. */
  predicate AllUnder(root: Text, names: seq<Text>) {
    forall t :: t in names ==> root + [SLASH] <= t
  }

  function WithoutTrailingSlashes(s: Text): Text {
    if EndsWithSlash(s) then WithoutTrailingSlashes(s[..|s| - 1]) else s
  }

  /** A member as seen from the archive root. */
  function Below(m: Member): Member
    requires m.parts != []
  {
    Member(m.parts[1..], m.isDirectory)
  }

  function Inside(members: seq<Member>): (inside: seq<Member>)
    requires forall i :: 0 <= i < |members| ==> members[i].parts != []
    ensures |inside| == |members|
    ensures forall i :: 0 <= i < |members| ==> inside[i] == Below(members[i])
  {
    seq(|members|, i requires 0 <= i < |members| => Below(members[i]))
  }

  lemma {:induction false} SplitOfJoined(first: Text, rest: Text)
    requires SLASH !in first
    ensures Split(first + [SLASH] + rest) == [first] + Split(rest)
  {
    var s := first + [SLASH] + rest;
    if first == [] {
      assert s[1..] == rest;
    } else {
      assert s[1..] == first[1..] + [SLASH] + rest;
      SplitOfJoined(first[1..], rest);
      assert first == [first[0]] + first[1..];
    }
  }

  lemma {:induction false} SplitOfTrailingSlash(s: Text)
    ensures Split(s + [SLASH]) == Split(s) + [[]]
  {
    if s == [] {
      assert (s + [SLASH])[1..] == [];
    } else {
      SplitOfTrailingSlash(s[1..]);
      assert (s + [SLASH])[1..] == s[1..] + [SLASH];
    }
  }

  lemma {:induction false} SplitWithoutSlash(s: Text)
    requires SLASH !in s
    ensures Split(s) == [s]
  {
    if s != [] {
      assert s[0] in s && s[0] != SLASH;
      SplitWithoutSlash(s[1..]);
      assert [s[0]] + s[1..] == s;
    }
  }

  lemma EmptyLastPart(s: Text)
    requires EndsWithSlash(s)
    ensures [] in Split(s)
  {
    assert s == s[..|s| - 1] + [SLASH];
    SplitOfTrailingSlash(s[..|s| - 1]);
    assert Split(s)[|Split(s)| - 1] == [];
  }

  /** A legal name ends with at most one slash, so stripping them all leaves its bare name. */
  lemma StrippedIsBare(u: Unicode, name: Text)
    requires MemberParts(u, name).Some?
    ensures !EndsWithSlash(BareName(name)) && WithoutTrailingSlashes(name) == BareName(name)
  {
    hide Split;
    if EndsWithSlash(BareName(name)) {
      EmptyLastPart(BareName(name));
    }
  }

  lemma {:induction false} StrippedBehind(first: Text, rest: Text)
    requires rest != [] && !EndsWithSlash(BareName(first + rest))
    ensures first + WithoutTrailingSlashes(rest) == BareName(first + rest) || BareName(rest) == []
  {
    assert EndsWithSlash(rest) == EndsWithSlash(first + rest);
    if EndsWithSlash(rest) {
      assert (first + rest)[..|first + rest| - 1] == first + rest[..|rest| - 1];
    }
  }

  /** The text behind the root splits into the member's parts below the root. */
  lemma RelativeParts(u: Unicode, root: Text, name: Text)
    requires SLASH !in root && root + [SLASH] <= name && MemberParts(u, name).Some?
    ensures var m := MemberParts(u, name).value;
      && m.parts[0] == root
      && (name == root + [SLASH] <==> |m.parts| == 1)
      && (name != root + [SLASH] ==> Split(WithoutTrailingSlashes(name[|root| + 1..])) == m.parts[1..])
  {
    hide Split, WithoutTrailingSlashes, MemberParts;
    var first, relative := root + [SLASH], name[|root| + 1..];
    assert name == first + relative;
    PartsOfBareName(u, name);
    StrippedIsBare(u, name);
    if relative == [] {
      assert BareName(name) == root;
      SplitWithoutSlash(root);
    } else {
      StrippedBehind(first, relative);
      if BareName(relative) != [] {
        assert first + WithoutTrailingSlashes(relative) == root + [SLASH] + WithoutTrailingSlashes(relative);
        SplitOfJoined(root, WithoutTrailingSlashes(relative));
        assert name != first;
      }
    }
  }

  lemma PartsOfBareName(u: Unicode, name: Text)
    requires MemberParts(u, name).Some?
    ensures MemberParts(u, name).value.parts == Split(BareName(name))
  {
  }

  /** What extraction should leave: the needed prefixes and nothing else, each file with its own data. */
  ghost predicate IsTreeOf(u: Unicode, nodes: map<Path, Node>, inside: seq<Member>, contents: seq<bytes>)
    requires |contents| == |inside|
  {
    && TableOf(u, Entries(nodes), Entered(inside))
    && HoldsFiles(u, nodes, inside, contents)
  }

  ghost predicate HoldsFiles(u: Unicode, nodes: map<Path, Node>, inside: seq<Member>, contents: seq<bytes>)
    requires |contents| == |inside|
  {
    forall i :: 0 <= i < |inside| && !inside[i].isDirectory ==>
      Key(u, inside[i].parts) in nodes && nodes[Key(u, inside[i].parts)] == File(inside[i].parts, contents[i])
  }

  lemma InsideConsistent(u: Unicode, root: Text, members: seq<Member>)
    requires Consistent(u, members)
    requires forall i :: 0 <= i < |members| ==> members[i].parts != [] && members[i].parts[0] == root
    ensures Consistent(u, Inside(members))
  {
    hide Key;
    var inside := Inside(members);
    forall e, f | Needed(e, inside) && Needed(f, inside) && Key(u, e.path) == Key(u, f.path) ensures e == f {
      var e1 := NeededAbove(root, members, e);
      var f1 := NeededAbove(root, members, f);
      KeyUnder(u, root, e.path);
      KeyUnder(u, root, f.path);
      assert e1 == f1;
      assert e.path == e1.path[1..] && f.path == f1.path[1..];
    }
  }

  lemma NeededAbove(root: Text, members: seq<Member>, e: Entry) returns (above: Entry)
    requires forall i :: 0 <= i < |members| ==> members[i].parts != [] && members[i].parts[0] == root
    requires Needed(e, Inside(members))
    ensures above == Entry([root] + e.path, e.isDirectory) && Needed(above, members)
  {
    above := Entry([root] + e.path, e.isDirectory);
    var m :| m in Inside(members) && IsEntryOf(e, m);
    var i :| 0 <= i < |members| && m == Below(members[i]);
    assert members[i].parts == [root] + m.parts;
    assert above.path == members[i].parts[..|e.path| + 1];
    assert IsEntryOf(above, members[i]);
    assert members[i] in members;
  }

  lemma KeyUnder(u: Unicode, root: Text, path: Path)
    ensures Key(u, [root] + path) == [u.fold(root)] + Key(u, path)
  {
  }

  // One member after another

  /** The directories a member needs: itself, or what holds it. */
  function DirectoriesOf(m: Member): Path {
    if m.isDirectory || m.parts == [] then m.parts else m.parts[..|m.parts| - 1]
  }

  /** The nodes after a member has been extracted. */
  function Extracted(u: Unicode, nodes: map<Path, Node>, m: Member, data: bytes): map<Path, Node> {
    var made := WithDirectories(u, nodes, DirectoriesOf(m));
    if m.isDirectory || m.parts == [] then made else made[Key(u, m.parts) := File(m.parts, data)]
  }

  /** Nothing made so far stands in the way of the next member's directories or of its file. */
  lemma NextFits(u: Unicode, nodes: map<Path, Node>, seen: seq<Member>, m: Member)
    requires TableOf(u, Entries(nodes), Entered(seen)) && Consistent(u, seen + [m])
    ensures var up := DirectoriesOf(m); forall n :: 1 <= n <= |up| && Key(u, up[..n]) in nodes ==>
      nodes[Key(u, up[..n])] == Directory(up[..n])
    ensures !m.isDirectory && m.parts != [] && (forall i :: 0 <= i < |seen| ==> seen[i].parts != m.parts) ==>
      Key(u, m.parts) !in WithDirectories(u, nodes, DirectoriesOf(m))
  {
    hide Key, WithDirectories;
    var up := DirectoriesOf(m);
    forall n | 1 <= n <= |up| && Key(u, up[..n]) in nodes ensures nodes[Key(u, up[..n])] == Directory(up[..n]) {
      assert up[..n] == m.parts[..n];
      MetBefore(u, nodes, seen, m, n);
    }
    if !m.isDirectory && m.parts != [] && (forall i :: 0 <= i < |seen| ==> seen[i].parts != m.parts) {
      MadeKeys(u, nodes, up);
      assert m.parts[..|m.parts|] == m.parts;
      if Key(u, m.parts) in nodes {
        MetBefore(u, nodes, seen, m, |m.parts|);
      }
    }
  }

  lemma MetBefore(u: Unicode, nodes: map<Path, Node>, seen: seq<Member>, m: Member, n: nat)
    requires TableOf(u, Entries(nodes), Entered(seen)) && Consistent(u, seen + [m])
    requires 1 <= n <= |m.parts| && Key(u, m.parts[..n]) in nodes
    ensures EntryOf(nodes[Key(u, m.parts[..n])]) == EntryAt(m, n)
    ensures Needed(EntryAt(m, n), seen)
  {
    hide Key;
    var e := EntryAt(m, n);
    var key := Key(u, e.path);
    var met := Entries(nodes)[key];
    assert met in Entered(seen) && Key(u, met.path) == key;
    EnteredNext(seen, m);
    assert IsEntryOf(e, m) && m in seen + [m];
    assert met in Entered(seen + [m]) && e in Entered(seen + [m]);
  }

  lemma ExtractedCases(u: Unicode, nodes: map<Path, Node>, m: Member, data: bytes)
    ensures m.parts == [] ==> Extracted(u, nodes, m, data) == nodes
    ensures m.isDirectory ==> Extracted(u, nodes, m, data) == WithDirectories(u, nodes, m.parts)
    ensures !m.isDirectory && m.parts != [] ==>
      && var made := WithDirectories(u, nodes, m.parts[..|m.parts| - 1]);
      && Extracted(u, nodes, m, data) == made[Key(u, m.parts) := File(m.parts, data)]
  {
  }

  lemma EntryStays(u: Unicode, nodes: map<Path, Node>, seen: seq<Member>, m: Member, data: bytes, e: Entry)
    requires TableOf(u, Entries(nodes), Entered(seen)) && Consistent(u, seen + [m]) && e in Entered(seen)
    ensures var next := Extracted(u, nodes, m, data); Key(u, e.path) in next && EntryOf(next[Key(u, e.path)]) == e
  {
    hide Key, WithDirectories;
    assert Key(u, e.path) in Entries(nodes) && Entries(nodes)[Key(u, e.path)] == e;
    MadeKeys(u, nodes, DirectoriesOf(m));
    if !m.isDirectory && m.parts != [] && Key(u, e.path) == Key(u, m.parts) {
      assert m.parts[..|m.parts|] == m.parts;
      MetBefore(u, nodes, seen, m, |m.parts|);
    }
  }

  lemma EntryAdded(u: Unicode, nodes: map<Path, Node>, seen: seq<Member>, m: Member, data: bytes, e: Entry)
    requires TableOf(u, Entries(nodes), Entered(seen)) && Consistent(u, seen + [m]) && IsEntryOf(e, m)
    ensures var next := Extracted(u, nodes, m, data); Key(u, e.path) in next && EntryOf(next[Key(u, e.path)]) == e
  {
    hide Key, WithDirectories;
    var up := DirectoriesOf(m);
    var n := |e.path|;
    assert m.parts[..|m.parts|] == m.parts;
    MadeKeys(u, nodes, up);
    if n <= |up| {
      assert up[..n] == m.parts[..n];
      if Key(u, e.path) in nodes {
        MetBefore(u, nodes, seen, m, n);
      }
    }
  }

  lemma NodeIsNeeded(u: Unicode, nodes: map<Path, Node>, seen: seq<Member>, m: Member, data: bytes, k: Path)
    requires TableOf(u, Entries(nodes), Entered(seen)) && k in Extracted(u, nodes, m, data)
    ensures var n := Extracted(u, nodes, m, data)[k]; Key(u, n.path) == k && EntryOf(n) in Entered(seen + [m])
  {
    hide Key, WithDirectories;
    var up := DirectoriesOf(m);
    EnteredNext(seen, m);
    MadeKeys(u, nodes, up);
    var n := Extracted(u, nodes, m, data)[k];
    if k in nodes && n == nodes[k] {
      assert k in Entries(nodes);
    } else {
      assert m.parts[..|m.parts|] == m.parts;
      assert |k| <= |up| ==> up[..|k|] == m.parts[..|k|];
      assert EntryOf(n) == EntryAt(m, |k|);
      assert IsEntryOf(EntryAt(m, |k|), m);
    }
  }

  /** The nodes after the next member hold exactly the entries needed so far. */
  lemma NextEntries(u: Unicode, nodes: map<Path, Node>, seen: seq<Member>, m: Member, data: bytes)
    requires TableOf(u, Entries(nodes), Entered(seen)) && Consistent(u, seen + [m])
    ensures TableOf(u, Entries(Extracted(u, nodes, m, data)), Entered(seen + [m]))
  {
    hide Key, WithDirectories, Extracted, Consistent;
    var next := Extracted(u, nodes, m, data);
    EnteredNext(seen, m);
    forall e | e in Entered(seen + [m]) ensures Key(u, e.path) in next && EntryOf(next[Key(u, e.path)]) == e {
      if e in Entered(seen) {
        EntryStays(u, nodes, seen, m, data, e);
      } else {
        EntryAdded(u, nodes, seen, m, data, e);
      }
    }
    forall k | k in next ensures EntryOf(next[k]) in Entered(seen + [m]) && Key(u, next[k].path) == k {
      NodeIsNeeded(u, nodes, seen, m, data, k);
    }
  }

  /** Files written earlier keep their data. */
  lemma NextFiles(u: Unicode, nodes: map<Path, Node>, seen: seq<Member>, m: Member, data: bytes, contents: seq<bytes>)
    requires |contents| == |seen| && IsTreeOf(u, nodes, seen, contents) && Consistent(u, seen + [m])
    requires forall i :: 0 <= i < |seen| ==> seen[i].parts != [] ==> seen[i].parts != m.parts
    requires forall i :: 0 <= i < |seen| ==> seen[i].parts == [] ==> seen[i].isDirectory
    requires m.parts == [] ==> m.isDirectory
    ensures HoldsFiles(u, Extracted(u, nodes, m, data), seen + [m], contents + [data])
  {
    hide Key, WithDirectories;
    var next := Extracted(u, nodes, m, data);
    var all := seen + [m];
    var up := DirectoriesOf(m);
    MadeKeys(u, nodes, up);
    forall i | 0 <= i < |all| && !all[i].isDirectory
      ensures Key(u, all[i].parts) in next && next[Key(u, all[i].parts)] == File(all[i].parts, (contents + [data])[i])
    {
      if i < |seen| && !m.isDirectory {
        assert all[i] in all && all[|seen|] == m;
        if Key(u, all[i].parts) == Key(u, m.parts) {
          OneMemberPerKey(u, all, i, |seen|);
          assert false;
        }
      }
    }
  }

  /** One member extracted: nothing was in its way, and the tree is that of one member more. */
  lemma Step(u: Unicode, nodes: map<Path, Node>, seen: seq<Member>, m: Member, data: bytes, contents: seq<bytes>)
    requires |contents| == |seen| && IsTreeOf(u, nodes, seen, contents) && Consistent(u, seen + [m])
    requires forall i :: 0 <= i < |seen| ==> seen[i].parts != m.parts
    requires forall i :: 0 <= i < |seen| ==> seen[i].parts == [] ==> seen[i].isDirectory
    requires m.parts == [] ==> m.isDirectory
    ensures IsTreeOf(u, Extracted(u, nodes, m, data), seen + [m], contents + [data])
    ensures var up := DirectoriesOf(m);
      forall n :: 1 <= n <= |up| && Key(u, up[..n]) in nodes ==> nodes[Key(u, up[..n])].Directory?
    ensures !m.isDirectory ==> Key(u, m.parts) !in WithDirectories(u, nodes, DirectoriesOf(m))
  {
    hide Key, WithDirectories, Extracted, Consistent, TableOf, HoldsFiles;
    NextFits(u, nodes, seen, m);
    NextEntries(u, nodes, seen, m, data);
    NextFiles(u, nodes, seen, m, data, contents);
  }

  lemma StartOfTree(u: Unicode)
    ensures IsTreeOf(u, map[], [], [])
  {
  }

  datatype Outcome = Refused | Clashed | Complete

  /** Portable names below the root give distinct, consistent members below it. */
  lemma PortableInside(u: Unicode, root: Text, names: seq<Text>, directories: set<Text>)
    requires SLASH !in root && AllUnder(root, names) && Portable(u, names, directories)
    requires directories == DirectoryNames(names)
    ensures var members := Members(u, names, directories);
      && (forall i :: 0 <= i < |members| ==> members[i].parts != [] && members[i].parts[0] == root)
      && Consistent(u, Inside(members))
      && (forall i, j :: 0 <= i < j < |members| ==> Inside(members)[i].parts != Inside(members)[j].parts)
      && (forall i :: 0 <= i < |members| && Inside(members)[i].parts == [] ==> names[i] == root + [SLASH])
      && (forall i :: 0 <= i < |members| ==> members[i].isDirectory == EndsWithSlash(names[i]))
  {
    hide Key, Consistent, MemberParts;
    var members := Members(u, names, directories);
    forall i | 0 <= i < |names|
      ensures members[i].parts != [] && members[i].parts[0] == root
      ensures |members[i].parts| == 1 ==> names[i] == root + [SLASH]
      ensures members[i].isDirectory == EndsWithSlash(names[i])
    {
      assert names[i] in names && MemberParts(u, names[i]).Some?;
      RelativeParts(u, root, names[i]);
      KindFromName(u, names[i]);
    }
    InsideConsistent(u, root, members);
    forall i, j | 0 <= i < j < |members| ensures Inside(members)[i].parts != Inside(members)[j].parts {
      assert members[i].parts == [root] + Below(members[i]).parts;
      assert members[j].parts == [root] + Below(members[j]).parts;
    }
  }

  lemma KindFromName(u: Unicode, name: Text)
    requires MemberParts(u, name).Some?
    ensures MemberParts(u, name).value.isDirectory == EndsWithSlash(name)
    ensures MemberParts(u, name).value.parts != []
  {
  }

  /**
   `_extract_canonical_source_tree`: refused names never reach the filesystem, and accepted names
   always extract in full. No exclusive creation and no directory creation can fail.
   */
  method ExtractCanonicalSourceTree(u: Unicode, root: Text, names: seq<Text>, contents: seq<bytes>, tree: Tree)
    returns (outcome: Outcome)
    requires |contents| == |names| && SLASH !in root
    requires tree.u == u && tree.nodes == map[]
    modifies tree
    ensures outcome != Clashed
    ensures outcome == Complete <==> Portable(u, names, DirectoryNames(names)) && AllUnder(root, names)
    ensures outcome == Refused ==> tree.nodes == map[]
    ensures outcome == Complete ==>
      var members := Members(u, names, DirectoryNames(names));
      && (forall i :: 0 <= i < |members| ==> members[i].parts != [])
      && IsTreeOf(u, tree.nodes, Inside(members), contents)
  {
    hide Key, Consistent, TableOf, MemberParts, WithDirectories, Extracted, HoldsFiles;
    var ok := FinalizerPaths(u, names, DirectoryNames(names));
    if !ok || !AllUnder(root, names) {
      return Refused;
    }
    PortableInside(u, root, names, DirectoryNames(names));
    ghost var inside := Inside(Members(u, names, DirectoryNames(names)));
    StartOfTree(u);
    for i := 0 to |names|
      invariant IsTreeOf(u, tree.nodes, inside[..i], contents[..i])
    {
      var name := names[i];
      assert inside[..i + 1] == inside[..i] + [inside[i]] && contents[..i + 1] == contents[..i] + [contents[i]];
      assert name in names && MemberParts(u, name).Some?;
      ghost var before := tree.nodes;
      RelativeParts(u, root, name);
      PrefixConsistent(u, inside, i + 1);
      Step(u, before, inside[..i], inside[i], contents[i], contents[..i]);
      if name != root + [SLASH] {
        var target := Split(WithoutTrailingSlashes(name[|root| + 1..]));
        assert target == inside[i].parts;
        if EndsWithSlash(name) {
          ok := tree.MakeDirectories(target);
          if !ok {
            return Clashed;
          }
        } else {
          ok := tree.MakeDirectories(target[..|target| - 1]);
          if !ok {
            return Clashed;
          }
          ok := tree.WriteNew(target, contents[i]);
          if !ok {
            return Clashed;
          }
        }
      }
      ExtractedCases(u, before, inside[i], contents[i]);
    }
    assert inside[..|names|] == inside && contents[..|names|] == contents;
    return Complete;
  }

  /** The same members with the same data, whatever their order. */
  ghost predicate SameItems(inside: seq<Member>, contents: seq<bytes>, others: seq<Member>, otherContents: seq<bytes>)
    requires |contents| == |inside| && |otherContents| == |others|
  {
    forall m, d :: IsItem(m, d, inside, contents) <==> IsItem(m, d, others, otherContents)
  }

  ghost predicate IsItem(m: Member, data: bytes, inside: seq<Member>, contents: seq<bytes>)
    requires |contents| == |inside|
  {
    exists i :: 0 <= i < |inside| && inside[i] == m && contents[i] == data
  }

  /** Extraction in any order leaves the same tree. */
  lemma OneTree(u: Unicode, inside: seq<Member>, contents: seq<bytes>, others: seq<Member>, otherContents: seq<bytes>,
      nodes: map<Path, Node>, otherNodes: map<Path, Node>)
    requires |contents| == |inside| && |otherContents| == |others|
    requires SameItems(inside, contents, others, otherContents)
    requires IsTreeOf(u, nodes, inside, contents) && IsTreeOf(u, otherNodes, others, otherContents)
    ensures nodes == otherNodes
  {
    hide Key;
    SameEntries(inside, contents, others, otherContents);
    SameEntries(others, otherContents, inside, contents);
    SubTree(u, inside, contents, others, otherContents, nodes, otherNodes);
    SubTree(u, others, otherContents, inside, contents, otherNodes, nodes);
  }

  lemma SameEntries(inside: seq<Member>, contents: seq<bytes>, others: seq<Member>, otherContents: seq<bytes>)
    requires |contents| == |inside| && |otherContents| == |others|
    requires SameItems(inside, contents, others, otherContents)
    ensures Entered(inside) <= Entered(others)
  {
    forall e | e in Entered(inside) ensures e in Entered(others) {
      var m :| m in inside && IsEntryOf(e, m);
      var i :| 0 <= i < |inside| && inside[i] == m;
      assert IsItem(m, contents[i], inside, contents);
      assert IsItem(m, contents[i], others, otherContents);
    }
  }

  lemma SubTree(u: Unicode, inside: seq<Member>, contents: seq<bytes>, others: seq<Member>, otherContents: seq<bytes>,
      nodes: map<Path, Node>, otherNodes: map<Path, Node>)
    requires |contents| == |inside| && |otherContents| == |others|
    requires SameItems(inside, contents, others, otherContents) && Entered(inside) <= Entered(others)
    requires IsTreeOf(u, nodes, inside, contents) && IsTreeOf(u, otherNodes, others, otherContents)
    ensures forall k :: k in nodes ==> k in otherNodes && otherNodes[k] == nodes[k]
  {
    hide Key;
    forall k | k in nodes ensures k in otherNodes && otherNodes[k] == nodes[k] {
      var e := Entries(nodes)[k];
      assert e in Entered(inside) && Key(u, e.path) == k;
      assert k in Entries(otherNodes) && Entries(otherNodes)[k] == e;
      if nodes[k].File? {
        var m :| m in inside && IsEntryOf(e, m);
        assert e.path == m.parts && !m.isDirectory;
        var i :| 0 <= i < |inside| && inside[i] == m;
        assert IsItem(m, contents[i], inside, contents);
        assert IsItem(m, contents[i], others, otherContents);
      }
    }
  }
}

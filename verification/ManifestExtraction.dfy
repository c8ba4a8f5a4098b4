/**
 Extraction of the files a bundle's manifest lists (bundle.py, `_extract_manifested_root`), and
 when it can fail although the binding has accepted the archive.
 */
module ManifestExtraction {
  import opened ArchivePaths
  import opened ArchiveExtraction
  import opened Struct
  import opened Utf8
  import B = ManifestBinding
  import S = Samplers
  import opened TextOrder
  import opened ZipFormat

  /** No path leads to another one or through it, up to folding. */
  ghost predicate NoneInTheWay(u: Unicode, paths: seq<Path>) {
    forall i, j :: 0 <= i < |paths| && 0 <= j < |paths| && i != j ==> !LeadsTo(u, paths[i], paths[j])
  }

  ghost predicate LeadsTo(u: Unicode, p: Path, q: Path) {
    |p| <= |q| && Key(u, p) == Key(u, q[..|p|])
  }

  /** Every node is a file at its own path with its own data, or a directory on the way to one. */
  ghost predicate HoldsExactly(u: Unicode, nodes: map<Path, Node>, paths: seq<Path>, contents: seq<bytes>)
    requires |contents| == |paths|
  {
    && FilesInPlace(u, nodes, paths, contents)
    && (forall k :: k in nodes ==> OnTheWay(u, k, paths))
    && WaysExist(u, nodes, paths)
    && (forall k :: k in nodes && nodes[k].File? ==> IsFileKey(u, k, paths))
  }

  ghost predicate FilesInPlace(u: Unicode, nodes: map<Path, Node>, paths: seq<Path>, contents: seq<bytes>)
    requires |contents| == |paths|
  {
    forall i :: 0 <= i < |paths| ==>
      paths[i] != [] && Key(u, paths[i]) in nodes && nodes[Key(u, paths[i])] == File(paths[i], contents[i])
  }

  ghost predicate WaysExist(u: Unicode, nodes: map<Path, Node>, paths: seq<Path>) {
    forall i, n :: 0 <= i < |paths| && 1 <= n <= |paths[i]| ==> Key(u, paths[i][..n]) in nodes
  }

  ghost predicate OnTheWay(u: Unicode, k: Path, paths: seq<Path>) {
    exists i :: 0 <= i < |paths| && IsOnTheWay(u, k, paths[i])
  }

  ghost predicate IsOnTheWay(u: Unicode, k: Path, path: Path) {
    1 <= |k| <= |path| && k == Key(u, path[..|k|])
  }

  ghost predicate IsFileKey(u: Unicode, k: Path, paths: seq<Path>) {
    exists i :: 0 <= i < |paths| && k == Key(u, paths[i])
  }

  lemma WholePrefix(p: Path)
    ensures p[..|p|] == p
  {
  }

  /** The next path meets a file on its way, or anything at its end. */
  ghost predicate Meets(u: Unicode, nodes: map<Path, Node>, path: Path) {
    Key(u, path) in nodes || exists n :: 1 <= n < |path| && IsFileAt(u, nodes, path[..n])
  }

  ghost predicate IsFileAt(u: Unicode, nodes: map<Path, Node>, path: Path) {
    Key(u, path) in nodes && nodes[Key(u, path)].File?
  }

  ghost predicate Conflicts(u: Unicode, paths: seq<Path>, path: Path) {
    exists i :: 0 <= i < |paths| && (LeadsTo(u, paths[i], path) || LeadsTo(u, path, paths[i]))
  }

  lemma MeetsMeansConflict(u: Unicode, nodes: map<Path, Node>, paths: seq<Path>, contents: seq<bytes>, path: Path)
    requires |contents| == |paths| && HoldsExactly(u, nodes, paths, contents) && path != []
    requires Meets(u, nodes, path)
    ensures Conflicts(u, paths, path)
  {
    hide Key, FilesInPlace, WaysExist;
    if Key(u, path) in nodes {
      assert OnTheWay(u, Key(u, path), paths);
      var i :| 0 <= i < |paths| && IsOnTheWay(u, Key(u, path), paths[i]);
      assert LeadsTo(u, path, paths[i]);
    } else {
      var n :| 1 <= n < |path| && IsFileAt(u, nodes, path[..n]);
      var i :| 0 <= i < |paths| && Key(u, path[..n]) == Key(u, paths[i]);
      assert LeadsTo(u, paths[i], path);
    }
  }

  lemma ConflictMeets(u: Unicode, nodes: map<Path, Node>, paths: seq<Path>, contents: seq<bytes>, path: Path)
    requires |contents| == |paths| && HoldsExactly(u, nodes, paths, contents) && path != []
    requires Conflicts(u, paths, path)
    ensures Meets(u, nodes, path)
  {
    hide Key, OnTheWay, IsFileKey;
    WholePrefix(path);
    var i :| 0 <= i < |paths| && (LeadsTo(u, paths[i], path) || LeadsTo(u, path, paths[i]));
    var other := paths[i];
    WholePrefix(other);
    if LeadsTo(u, path, other) {
      assert Key(u, other[..|path|]) in nodes;
    } else if |other| < |path| {
      assert IsFileAt(u, nodes, path[..|other|]);
    }
  }

  lemma AlongTheNewPath(u: Unicode, nodes: map<Path, Node>, path: Path, data: bytes, k: Path)
    requires path != []
    ensures var made := WithDirectories(u, nodes, path[..|path| - 1]);
      var next := made[Key(u, path) := File(path, data)];
      k in next ==>
        || (k in nodes && next[k] == nodes[k]) || k == Key(u, path)
        || (IsOnTheWay(u, k, path) && next[k].Directory?)
  {
    hide Key, WithDirectories;
    var up := path[..|path| - 1];
    MadeKeys(u, nodes, up);
    if 1 <= |k| <= |up| {
      assert up[..|k|] == path[..|k|];
    }
  }

  lemma NewWaysExist(u: Unicode, nodes: map<Path, Node>, paths: seq<Path>, path: Path, data: bytes)
    requires WaysExist(u, nodes, paths) && path != []
    ensures var made := WithDirectories(u, nodes, path[..|path| - 1]);
      WaysExist(u, made[Key(u, path) := File(path, data)], paths + [path])
  {
    hide Key, WithDirectories;
    var up, all := path[..|path| - 1], paths + [path];
    var next := WithDirectories(u, nodes, up)[Key(u, path) := File(path, data)];
    MadeKeys(u, nodes, up);
    WholePrefix(path);
    forall i, n | 0 <= i < |all| && 1 <= n <= |all[i]| ensures Key(u, all[i][..n]) in next {
      if i < |paths| {
        assert Key(u, paths[i][..n]) in nodes;
      } else if n < |path| {
        assert up[..n] == path[..n];
      }
    }
  }

  lemma NewFilesInPlace(
    u: Unicode, nodes: map<Path, Node>, paths: seq<Path>, contents: seq<bytes>, path: Path, data: bytes)
    requires |contents| == |paths| && FilesInPlace(u, nodes, paths, contents) && path != []
    requires Key(u, path) !in nodes
    ensures var made := WithDirectories(u, nodes, path[..|path| - 1]);
      FilesInPlace(u, made[Key(u, path) := File(path, data)], paths + [path], contents + [data])
  {
    hide Key, WithDirectories;
    MadeKeys(u, nodes, path[..|path| - 1]);
  }

  /** The nodes after one more file, with the directories above it. */
  lemma OneMoreFile(u: Unicode, nodes: map<Path, Node>, paths: seq<Path>, contents: seq<bytes>, path: Path, data: bytes)
    requires |contents| == |paths| && HoldsExactly(u, nodes, paths, contents) && path != []
    requires !Meets(u, nodes, path)
    ensures HoldsExactly(u, WithDirectories(u, nodes, path[..|path| - 1])[Key(u, path) := File(path, data)],
      paths + [path], contents + [data])
  {
    hide Key, WithDirectories, OnTheWay, IsOnTheWay, IsFileKey, FilesInPlace, WaysExist;
    var next := WithDirectories(u, nodes, path[..|path| - 1])[Key(u, path) := File(path, data)];
    var all := paths + [path];
    NewWaysExist(u, nodes, paths, path, data);
    NewFilesInPlace(u, nodes, paths, contents, path, data);
    forall k | k in next ensures OnTheWay(u, k, all) && (next[k].File? ==> IsFileKey(u, k, all)) {
      AlongTheNewPath(u, nodes, path, data, k);
      StillOnTheWay(u, k, paths, path);
    }
  }

  lemma StillOnTheWay(u: Unicode, k: Path, paths: seq<Path>, path: Path)
    requires path != []
    ensures OnTheWay(u, k, paths) || IsOnTheWay(u, k, path) || k == Key(u, path) ==> OnTheWay(u, k, paths + [path])
    ensures IsFileKey(u, k, paths) || k == Key(u, path) ==> IsFileKey(u, k, paths + [path])
  {
    hide Key;
    WholePrefix(path);
    var all := paths + [path];
    assert forall i :: 0 <= i < |paths| ==> all[i] == paths[i];
    assert all[|paths|] == path;
    assert k == Key(u, path) ==> IsOnTheWay(u, k, path);
  }

  lemma NothingHeld(u: Unicode)
    ensures HoldsExactly(u, map[], [], []) && NoneInTheWay(u, [])
  {
  }

  /** The directories above `path` can be made and its name is free unless it meets something. */
  lemma PassableOrMeets(u: Unicode, nodes: map<Path, Node>, path: Path)
    requires path != []
    ensures var up := path[..|path| - 1];
      Meets(u, nodes, path) <==>
        || Key(u, path) in WithDirectories(u, nodes, up)
        || exists n :: 1 <= n <= |up| && IsFileAt(u, nodes, up[..n])
  {
    hide Key, WithDirectories;
    var up := path[..|path| - 1];
    LongerKey(u, nodes, up, Key(u, path));
    assert forall n :: 1 <= n <= |up| ==> up[..n] == path[..n];
  }

  lemma OneMorePath(u: Unicode, paths: seq<Path>, i: nat)
    requires i < |paths| && NoneInTheWay(u, paths[..i])
    ensures NoneInTheWay(u, paths[..i + 1]) <==>
      !Conflicts(u, paths[..i], paths[i])
    ensures NoneInTheWay(u, paths) ==> NoneInTheWay(u, paths[..i + 1])
  {
    hide LeadsTo;
    var front := paths[..i];
    assert forall j :: 0 <= j < i ==> front[j] == paths[j];
    if NoneInTheWay(u, paths[..i + 1]) {
      assert forall j :: 0 <= j <= i ==> paths[..i + 1][j] == paths[j];
    }
  }

  ghost predicate SizesHold(sizes: seq<Option<int>>, contents: seq<bytes>)
    requires |contents| == |sizes|
  {
    forall i :: 0 <= i < |sizes| ==> sizes[i] == Some(|contents[i]|)
  }

  /**
   `_extract_manifested_root` into a fresh directory: it succeeds exactly when every file has the size
   its entry lists and no listed path is in another's way, and then leaves every file at its own path
   and no other file.
   */
  method ExtractManifestedRoot(
    u: Unicode, paths: seq<Path>, sizes: seq<Option<int>>, contents: seq<bytes>, tree: Tree) returns (ok: bool)
    requires |contents| == |paths| == |sizes| && (forall p :: p in paths ==> p != [])
    requires tree.u == u && tree.nodes == map[]
    modifies tree
    ensures ok <==> SizesHold(sizes, contents) && NoneInTheWay(u, paths)
    ensures ok ==> HoldsExactly(u, tree.nodes, paths, contents)
  {
    hide Key, WithDirectories, HoldsExactly, NoneInTheWay, Meets, Conflicts, LeadsTo;
    NothingHeld(u);
    for i := 0 to |paths|
      invariant NoneInTheWay(u, paths[..i])
      invariant forall j :: 0 <= j < i ==> sizes[j] == Some(|contents[j]|)
      invariant HoldsExactly(u, tree.nodes, paths[..i], contents[..i])
    {
      var path := paths[i];
      assert path in paths;
      ghost var before := tree.nodes;
      if Meets(u, before, path) {
        MeetsMeansConflict(u, before, paths[..i], contents[..i], path);
      } else if Conflicts(u, paths[..i], path) {
        ConflictMeets(u, before, paths[..i], contents[..i], path);
      }
      OneMorePath(u, paths, i);
      var up := path[..|path| - 1];
      PassableOrMeets(u, before, path);
      ok := tree.MakeDirectories(up);
      if ok && sizes[i].None? {
        return false;
      }
      if ok {
        ok := tree.WriteNew(path, contents[i]);
      }
      if !ok {
        return;
      }
      if |contents[i]| != sizes[i].value {
        return false;
      }
      OneMoreFile(u, before, paths[..i], contents[..i], path, contents[i]);
      assert contents[..i + 1] == contents[..i] + [contents[i]] && paths[..i + 1] == paths[..i] + [path];
    }
    assert paths[..|paths|] == paths && contents[..|paths|] == contents;
    return true;
  }

  // ----- what the binding leaves open -----

  const CATALOG: Text := B.REQUIRED[0]
  const CONFIG: Text := B.REQUIRED[1]
  const OUTER: Text := TextOf("x")
  const INNER: Text := TextOf("x/y")

  /** Sixty-four zeros: a digest as the manifest spells it. */
  const DIGEST: bytes := RepeatByte(0x30, 64)

  function RepeatByte(b: byte, n: nat): (r: bytes)
    ensures |r| == n && forall i :: 0 <= i < n ==> r[i] == b
  {
    if n == 0 then [] else RepeatByte(b, n - 1) + [b]
  }

  function EmptyFile(name: Text): B.Member {
    B.Member(
      ZipInfo(name, 0, DEFLATED, 0, 2, 0, 0, 3, 20, 20, 0, 0x81A4_0000, [1980, 1, 1, 0, 0, 0], 0),
      B.Read(DIGEST, 0))
  }

  function EmptyEntry(path: Text): B.Entry {
    B.Entry(path, Some(DIGEST), Some(0), Some(B.MANIFEST_MODE))
  }

  /** An archive of empty files, one of which is listed as lying under another. */
  function FileUnderFile(): B.Archive {
    B.Archive(
      [ EmptyFile(B.MANIFEST), EmptyFile(B.ROOT + CATALOG), EmptyFile(B.ROOT + CONFIG),
        EmptyFile(B.ROOT + OUTER), EmptyFile(B.ROOT + INNER) ],
      t => true, t => t)
  }

  function FileUnderFileManifest(): B.Manifest {
    B.Manifest([EmptyEntry(CATALOG), EmptyEntry(CONFIG), EmptyEntry(OUTER), EmptyEntry(INNER)], Some(4), Some(0))
  }

  lemma EmptyFileIs(name: Text)
    ensures var m := EmptyFile(name);
      && m.Name() == name && m.Mode() == B.MANIFEST_MODE && m.stream == B.Read(DIGEST, 0)
      && (name != [] && name[|name| - 1] != '/' as int ==> B.IsPlain(m))
  {
    hide RepeatByte;
  }

  /** The five members, none of them a directory. */
  lemma MembersOfExample()
    ensures forall m :: m in FileUnderFile().members <==>
      m in [ EmptyFile(B.MANIFEST), EmptyFile(B.ROOT + CATALOG), EmptyFile(B.ROOT + CONFIG),
             EmptyFile(B.ROOT + OUTER), EmptyFile(B.ROOT + INNER) ]
    ensures forall m :: m in FileUnderFile().members ==>
      B.IsPlain(m) && m.stream == B.Read(DIGEST, 0) && m.Mode() == B.MANIFEST_MODE
  {
    EmptyFileIs(B.MANIFEST);
    EmptyFileIs(B.ROOT + CATALOG);
    EmptyFileIs(B.ROOT + CONFIG);
    EmptyFileIs(B.ROOT + OUTER);
    EmptyFileIs(B.ROOT + INNER);
    LastLetters();
    hide TextOf, EmptyFile, RepeatByte, B.IsPlain;
    var members := FileUnderFile().members;
    assert forall m :: m in members <==>
      m == members[0] || m == members[1] || m == members[2] || m == members[3] || m == members[4];
  }

  lemma LastLetters()
    ensures B.MANIFEST[|B.MANIFEST| - 1] == 'n' as int
    ensures (B.ROOT + CATALOG)[|B.ROOT + CATALOG| - 1] == '3' as int
    ensures (B.ROOT + CONFIG)[|B.ROOT + CONFIG| - 1] == 'n' as int
    ensures (B.ROOT + OUTER)[|B.ROOT + OUTER| - 1] == 'x' as int
    ensures (B.ROOT + INNER)[|B.ROOT + INNER| - 1] == 'y' as int
  {
  }

  lemma PathLengths()
    ensures |CATALOG| == 23 && |CONFIG| == 28 && |OUTER| == 1 && |INNER| == 3 && |B.MANIFEST| == |B.ROOT| + 20
  {
  }

  lemma NotUnderRoot(path: Text)
    requires path in [CATALOG, CONFIG, OUTER, INNER]
    ensures !(B.ROOT <= path)
  {
    PathLengths();
    assert B.ROOT[0] == 'e' as int && CATALOG[0] == 'c' as int && CONFIG[0] == 'c' as int;
    assert path[0] != B.ROOT[0] || |path| < |B.ROOT|;
  }

  /** The five names differ, since their lengths do. */
  lemma NamesDiffer()
    ensures S.AllDistinct(B.Names(FileUnderFile().members))
    ensures B.Names(FileUnderFile().members) ==
      [B.MANIFEST, B.ROOT + CATALOG, B.ROOT + CONFIG, B.ROOT + OUTER, B.ROOT + INNER]
  {
    PathLengths();
    hide TextOf;
    var names := B.Names(FileUnderFile().members);
    assert names == [B.MANIFEST, B.ROOT + CATALOG, B.ROOT + CONFIG, B.ROOT + OUTER, B.ROOT + INNER];
    assert forall i, j :: 0 <= i < j < 5 ==> |names[i]| != |names[j]|;
  }

  lemma EmptyEntryIsBound(a: B.Archive, path: Text)
    requires S.AllDistinct(B.Names(a.members)) && B.ROOT + path in B.Names(a.members) && !B.IsUnsafe(a, path)
    requires forall m :: m in a.members ==> m.stream == B.Read(DIGEST, 0) && m.Mode() == B.MANIFEST_MODE
    ensures B.IsBound(a, EmptyEntry(path))
  {
    S.DistinctMeansOnce(B.Names(a.members));
    hide TextOf, B.Names, RepeatByte, B.Lookup, B.IsUnsafe;
    var m := B.Lookup(a.members, B.ROOT + path);
  }

  lemma EntryIsBound(path: Text)
    requires path in [CATALOG, CONFIG, OUTER, INNER]
    ensures B.IsBound(FileUnderFile(), EmptyEntry(path))
  {
    NotUnderRoot(path);
    NamesDiffer();
    MembersOfExample();
    assert FileUnderFile().safe(path);
    hide TextOf, B.Names, EmptyFile, EmptyEntry, RepeatByte, B.IsPlain, FileUnderFile, B.IsBound, S.AllDistinct;
    EmptyEntryIsBound(FileUnderFile(), path);
  }

  /**
   A manifest may bind a file and another file under it; such an archive has no extraction. The
   member names collide neither as they are nor folded, since only whole names are compared.
   */
  lemma BindingDoesNotMeanExtraction(u: Unicode)
    ensures B.NamesFine(FileUnderFile()) && B.ManifestMemberFine(FileUnderFile())
    ensures B.Bound(FileUnderFile(), FileUnderFileManifest())
    ensures !NoneInTheWay(u, [Split(CATALOG), Split(CONFIG), Split(OUTER), Split(INNER)])
  {
    ExampleIsBound();
    ExampleNamesFine();
    ExampleManifestMember();
    SplitsOfExample();
    var parts := [Split(CATALOG), Split(CONFIG), Split(OUTER), Split(INNER)];
    hide B.Bound, B.NamesFine, B.ManifestMemberFine, TextOf, Split;
    assert LeadsTo(u, parts[2], parts[3]);
  }

  /**
   Where the binding fails: a manifest that is the JSON value `null` is accepted for any archive whose
   names are in order and whose manifest member is, whatever else it holds.
   */
  lemma NullManifestBindsNothing(a: B.Archive, maxEntries: nat)
    ensures B.BindingAccepted(a, B.JsonNull, [], maxEntries) <==> B.NamesFine(a) && B.ManifestMemberFine(a)
  {
  }

  /** So the example passes with four members that no manifest lists. */
  lemma UnlistedMembersPass(maxEntries: nat)
    ensures B.BindingAccepted(FileUnderFile(), B.JsonNull, [], maxEntries)
    ensures |FileUnderFile().members| == 5
  {
    ExampleNamesFine();
    ExampleManifestMember();
    hide B.NamesFine, B.ManifestMemberFine;
  }

  lemma PathsOfExample()
    ensures var paths := B.Paths(FileUnderFileManifest().files);
      && paths == [CATALOG, CONFIG, OUTER, INNER]
      && S.AllDistinct(paths)
      && (forall r :: r in B.REQUIRED ==> r in paths)
  {
    PathLengths();
    hide TextOf;
    var paths := B.Paths(FileUnderFileManifest().files);
    assert paths == [CATALOG, CONFIG, OUTER, INNER];
    assert forall i, j :: 0 <= i < j < 4 ==> |paths[i]| != |paths[j]|;
  }

  lemma EntriesOfExample()
    ensures B.AllBound(FileUnderFile(), FileUnderFileManifest().files)
  {
    hide TextOf, B.IsBound, FileUnderFile;
    var files := FileUnderFileManifest().files;
    forall i | 0 <= i < 4 ensures B.IsBound(FileUnderFile(), files[i]) {
      EntryIsBound(files[i].path);
    }
  }

  lemma ExampleIsBound()
    ensures B.Bound(FileUnderFile(), FileUnderFileManifest())
  {
    PathsOfExample();
    EntriesOfExample();
    FilesOfExample();
    TotalOfExample();
    hide TextOf, B.AllBound, B.Paths, B.FileNames, B.DeclaredTotal, B.Prefixed;
  }

  lemma FilesOfExample()
    ensures B.SetOf(B.FileNames(FileUnderFile().members)) ==
      B.SetOf(B.Prefixed([CATALOG, CONFIG, OUTER, INNER])) + {B.MANIFEST}
  {
    MembersOfExample();
    NamesDiffer();
    hide TextOf, B.FileNames, B.Names, FileUnderFile, B.IsPlain, EmptyFile, RepeatByte, S.AllDistinct;
    B.AllNamesAreFiles(FileUnderFile().members);
    var listed := B.Prefixed([CATALOG, CONFIG, OUTER, INNER]);
    assert listed == [B.ROOT + CATALOG, B.ROOT + CONFIG, B.ROOT + OUTER, B.ROOT + INNER];
  }

  lemma TotalOfExample()
    ensures B.DeclaredTotal(FileUnderFileManifest().files) == 0
  {
    hide TextOf;
    B.TotalCons(EmptyEntry(INNER), []);
    B.TotalCons(EmptyEntry(OUTER), [EmptyEntry(INNER)]);
    B.TotalCons(EmptyEntry(CONFIG), [EmptyEntry(OUTER), EmptyEntry(INNER)]);
    B.TotalCons(EmptyEntry(CATALOG), [EmptyEntry(CONFIG), EmptyEntry(OUTER), EmptyEntry(INNER)]);
    assert FileUnderFileManifest().files ==
      [EmptyEntry(CATALOG)] + [EmptyEntry(CONFIG), EmptyEntry(OUTER), EmptyEntry(INNER)];
    assert [EmptyEntry(CONFIG), EmptyEntry(OUTER), EmptyEntry(INNER)] ==
      [EmptyEntry(CONFIG)] + [EmptyEntry(OUTER), EmptyEntry(INNER)];
    assert [EmptyEntry(OUTER), EmptyEntry(INNER)] == [EmptyEntry(OUTER)] + [EmptyEntry(INNER)];
    assert [EmptyEntry(INNER)] == [EmptyEntry(INNER)] + [];
  }

  lemma SplitsOfExample()
    ensures Split(OUTER) == [TextOf("x")] && Split(INNER) == [TextOf("x"), TextOf("y")]
  {
    var x, y := TextOf("x"), TextOf("y");
    SplitWithoutSlash(x);
    SplitWithoutSlash(y);
    SplitOfJoined(x, y);
    assert INNER == x + [SLASH] + y;
  }

  lemma {:induction false} SamePrefix(p: Text, s: Text, t: Text)
    ensures LexLess(p + s, p + t) <==> LexLess(s, t)
  {
    if p == [] {
      assert p + s == s && p + t == t;
    } else {
      assert (p + s)[1..] == p[1..] + s && (p + t)[1..] == p[1..] + t;
      SamePrefix(p[1..], s, t);
    }
  }

  lemma FirstDecides(s: Text, t: Text)
    requires s != [] && t != [] && s[0] < t[0]
    ensures !LexLess(t, s)
  {
  }

  lemma ExampleOrder()
    ensures !LexLess(B.ROOT + CATALOG, B.MANIFEST)
    ensures !LexLess(B.ROOT + CONFIG, B.ROOT + CATALOG)
    ensures !LexLess(B.ROOT + OUTER, B.ROOT + CONFIG)
    ensures !LexLess(B.ROOT + INNER, B.ROOT + OUTER)
  {
    PathLengths();
    var manifest := TextOf("bundle.manifest.json");
    SamePrefix(B.ROOT, CATALOG, manifest);
    SamePrefix(B.ROOT, CONFIG, CATALOG);
    SamePrefix(B.ROOT, OUTER, CONFIG);
    SamePrefix(B.ROOT, INNER, OUTER);
    assert manifest[0] == 'b' as int && CATALOG[0] == 'c' as int && CONFIG[0] == 'c' as int && OUTER[0] == 'x' as int;
    assert CATALOG[1] == 'a' as int && CONFIG[1] == 'o' as int && INNER[0] == 'x' as int;
    hide TextOf;
    FirstDecides(manifest, CATALOG);
    FirstDecides(CATALOG[1..], CONFIG[1..]);
    FirstDecides(CONFIG, OUTER);
    assert OUTER[1..] == [];
  }

  lemma ExampleNamesFine()
    ensures B.NamesFine(FileUnderFile())
  {
    NamesDiffer();
    ExampleOrder();
    MembersOfExample();
    hide TextOf, B.Names, LexLess, RepeatByte, EmptyFile, B.IsPlain;
    var a := FileUnderFile();
    var names := B.Names(a.members);
    assert B.IsNondecreasing(names);
    assert forall t :: t in names ==> a.safe(t);
  }

  lemma ExampleManifestMember()
    ensures B.ManifestMemberFine(FileUnderFile())
  {
    NamesDiffer();
    EmptyFileIs(B.MANIFEST);
    hide TextOf, B.Names, RepeatByte, EmptyFile;
    var a := FileUnderFile();
    S.DistinctMeansOnce(B.Names(a.members));
    assert B.MANIFEST == B.Names(a.members)[0];
    var m := B.Lookup(a.members, B.MANIFEST);
    assert m.Mode() == B.MANIFEST_MODE;
  }
}

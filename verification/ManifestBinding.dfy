/**
 The binding of a bundle's manifest to its members (bundle.py, `_verify_root_bundle_impl`). The
 manifest arrives decoded; what its structural and semantic checks reported arrives with it.
 */
module ManifestBinding {
  import opened Struct
  import opened Utf8
  import opened BoundedErrors
  import opened Samplers
  import opened TextOrder
  import opened ZipFormat

  const ROOT: Text := TextOf("epic-continuum-root/")
  const MANIFEST: Text := ROOT + TextOf("bundle.manifest.json")
  const REQUIRED: seq<Text> := [TextOf("catalog/catalog.sqlite3"), TextOf("config/continuum.config.json")]
  const MANIFEST_MODE: nat := 0x1A4 // 0o644
  const MANIFEST_MAX_BYTES: nat := 16 * 1024 * 1024

  /** What reading a member's stream to its end gives: digest and size, or why it failed. */
  datatype Stream = Read(sha: bytes, size: nat) | Broken | Unreadable | LimitHit

  /** A member: its parsed directory entry, and what its data turn out to be. */
  datatype Member = Member(info: ZipInfo, stream: Stream) {
    function Name(): Text {
      info.filename
    }

    predicate IsDirectory() {
      info.filename != [] && info.filename[|info.filename| - 1] == '/' as int
    }

    predicate IsEncrypted() {
      info.flagBits % 2 == 1
    }

    predicate IsUnix() {
      info.createSystem == 3
    }

    /** `S_IMODE` of the mode in the attributes. */
    function Mode(): nat {
      info.externalAttr / 0x1_0000 % 0x1000
    }

    /** `S_IFMT` of it: 8 is a regular file, 10 a symbolic link. */
    function FileType(): nat {
      info.externalAttr / 0x1000_0000 % 16
    }

    predicate IsSpecial() {
      !IsDirectory() && IsUnix() && FileType() != 0 && FileType() != 8
    }
  }

  /** One element of the manifest's `files`. */
  datatype Entry =
    | NotObject
    | Entry(path: Text, sha: Option<bytes>, size: Option<int>, mode: Option<nat>)

  datatype Manifest = Manifest(files: seq<Entry>, fileCount: Option<int>, totalSize: Option<int>)

  /** The archive, with the portable-name rules and the folding of names as parameters. */
  datatype Archive = Archive(members: seq<Member>, safe: Text -> bool, fold: Text -> Text)

  datatype BindError =
    | MemberOrder
    | DuplicateMembers(names: seq<Text>)
    | UnsafeMembers(names: seq<Text>)
    | MemberCollisions
    | DirectoryMembers(names: seq<Text>)
    | EncryptedMembers(names: seq<Text>)
    | ForeignMembers(names: seq<Text>)
    | SpecialMembers(kinds: seq<(Text, nat)>)
    | ManifestMemberCount(count: nat)
    | ManifestModeNoncanonical
    | ManifestUndecodable
    | Reported(code: nat)
    | ManifestNotObject
    | TooManyFiles
    | EntryNotObject(index: nat)
    | UnsafePath(index: nat)
    | MemberCount(path: Text, count: nat)
    | MemberUnreadable(path: Text)
    | StreamInvalid(path: Text)
    | HashMismatch(path: Text)
    | SizeMismatch(path: Text)
    | ModeMismatch(path: Text)
    | LimitReached
    | DuplicatePaths(paths: seq<Text>)
    | PathCollisions
    | RequiredMissing
    | UnlistedMembers(names: seq<Text>)
    | MissingMembers(names: seq<Text>)
    | FileCountMismatch
    | TotalSizeMismatch

  type Errors = seq<BindError>

  function When(condition: bool, error: BindError): (errors: Errors)
    ensures errors == [] <==> !condition
  {
    if condition then [error] else []
  }

  function Names(members: seq<Member>): (names: seq<Text>)
    ensures |names| == |members|
    ensures forall i :: 0 <= i < |members| ==> names[i] == members[i].Name()
  {
    seq(|members|, i requires 0 <= i < |members| => members[i].Name())
  }

  function CountOf(a: Archive, name: Text): nat {
    multiset(Names(a.members))[name]
  }

  /** `archive.getinfo(name)` for a name that occurs. */
  function Lookup(members: seq<Member>, name: Text): (m: Member)
    requires name in Names(members)
    ensures m in members && m.Name() == name
  {
    if members[|members| - 1].Name() == name then members[|members| - 1]
    else
      assert Names(members) == Names(members[..|members| - 1]) + [members[|members| - 1].Name()];
      Lookup(members[..|members| - 1], name)
  }

  // ----- one entry -----

  datatype Run = Run(errors: Errors, listed: seq<Text>, total: nat, stopped: bool)

  predicate IsUnsafe(a: Archive, path: Text) {
    !a.safe(path) || ROOT <= path
  }

  function EntryStep(a: Archive, index: nat, e: Entry): Run {
    if e.NotObject? then Run([EntryNotObject(index)], [], 0, false)
    else if IsUnsafe(a, e.path) then Run([UnsafePath(index)], [], 0, false)
    else if CountOf(a, ROOT + e.path) != 1 then
      Run([MemberCount(e.path, CountOf(a, ROOT + e.path))], [e.path], 0, false)
    else
      var m := Lookup(a.members, ROOT + e.path);
      match m.stream
      case LimitHit => Run([LimitReached], [e.path], 0, true)
      case Unreadable => Run([MemberUnreadable(e.path)], [e.path], 0, false)
      case Broken => Run([StreamInvalid(e.path)], [e.path], 0, false)
      case Read(sha, size) =>
        Run(
          When(e.sha != Some(sha), HashMismatch(e.path))
          + When(e.size != Some(size), SizeMismatch(e.path))
          + When(m.IsUnix() && e.mode.Some? && e.mode.value != m.Mode(), ModeMismatch(e.path)),
          [e.path], size, false)
  }

  function EntryRun(a: Archive, entries: seq<Entry>, index: nat): Run
    requires index <= |entries|
    decreases |entries| - index
  {
    if index == |entries| then Run([], [], 0, false)
    else
      var first := EntryStep(a, index, entries[index]);
      if first.stopped then first
      else
        var rest := EntryRun(a, entries, index + 1);
        Run(first.errors + rest.errors, first.listed + rest.listed, first.total + rest.total, rest.stopped)
  }

  /** The entry loop has reported `seen` and collected `listed` and `total` so far. */
  ghost predicate RunSoFar(
    a: Archive, entries: seq<Entry>, index: nat, seen: Errors, listed: seq<Text>, total: nat)
  {
    && index <= |entries|
    && var rest := EntryRun(a, entries, index);
    && EntryRun(a, entries, 0) == Run(seen + rest.errors, listed + rest.listed, total + rest.total, rest.stopped)
  }

  lemma RunStarts(a: Archive, entries: seq<Entry>)
    ensures RunSoFar(a, entries, 0, [], [], 0)
  {
  }

  lemma RunNext(a: Archive, entries: seq<Entry>, index: nat, seen: Errors, listed: seq<Text>, total: nat)
    requires RunSoFar(a, entries, index, seen, listed, total) && index < |entries|
    ensures var step := EntryStep(a, index, entries[index]);
      if step.stopped then
        EntryRun(a, entries, 0) == Run(seen + step.errors, listed + step.listed, total + step.total, true)
      else RunSoFar(a, entries, index + 1, seen + step.errors, listed + step.listed, total + step.total)
  {
    hide EntryStep;
    var step := EntryStep(a, index, entries[index]);
    if !step.stopped {
      var rest := EntryRun(a, entries, index + 1);
      assert seen + (step.errors + rest.errors) == seen + step.errors + rest.errors;
      assert listed + (step.listed + rest.listed) == listed + step.listed + rest.listed;
    }
  }

  method CheckEntries(a: Archive, entries: seq<Entry>, errors: Collector<BindError>) returns (run: Run)
    requires errors.Valid()
    modifies errors
    ensures errors.Valid()
    ensures run.(errors := []) == EntryRun(a, entries, 0).(errors := [])
    ensures Grew(old(errors.history), errors.history, EntryRun(a, entries, 0).errors)
  {
    hide EntryStep, EntryRun, RunSoFar, Grew;
    GrewNot(errors.history);
    RunStarts(a, entries);
    run := Run([], [], 0, false);
    ghost var seen: Errors := [];
    for index := 0 to |entries|
      invariant errors.Valid() && !run.stopped && run.errors == []
      invariant Grew(old(errors.history), errors.history, seen)
      invariant RunSoFar(a, entries, index, seen, run.listed, run.total)
    {
      RunNext(a, entries, index, seen, run.listed, run.total);
      var step := EntryStep(a, index, entries[index]);
      Report(errors, step.errors, old(errors.history), seen);
      seen := seen + step.errors;
      run := Run([], run.listed + step.listed, run.total + step.total, step.stopped);
      if step.stopped {
        return;
      }
    }
    RunEnds(a, entries, seen, run.listed, run.total);
  }

  lemma RunEnds(a: Archive, entries: seq<Entry>, seen: Errors, listed: seq<Text>, total: nat)
    requires RunSoFar(a, entries, |entries|, seen, listed, total)
    ensures EntryRun(a, entries, 0) == Run(seen, listed, total, false)
  {
  }

  // ----- the sets of names -----

  function Prefixed(paths: seq<Text>): (names: seq<Text>)
    ensures |names| == |paths|
    ensures forall i :: 0 <= i < |paths| ==> names[i] == ROOT + paths[i]
  {
    seq(|paths|, i requires 0 <= i < |paths| => ROOT + paths[i])
  }

  /** The names of the members that are not directories. */
  function FileNames(members: seq<Member>): seq<Text> {
    if members == [] then []
    else
      var last := members[|members| - 1];
      FileNames(members[..|members| - 1]) + if last.IsDirectory() then [] else [last.Name()]
  }

  lemma {:induction false} FileNamesAre(members: seq<Member>)
    ensures forall t :: t in FileNames(members) <==> exists m :: m in members && m.Name() == t && !m.IsDirectory()
  {
    if members != [] {
      var front, last := members[..|members| - 1], members[|members| - 1];
      FileNamesAre(front);
      assert members == front + [last];
      forall t | t in FileNames(members) ensures exists m :: m in members && m.Name() == t && !m.IsDirectory() {
        if t in FileNames(front) {
          var m :| m in front && m.Name() == t && !m.IsDirectory();
          assert m in members;
        } else {
          assert last in members;
        }
      }
    }
  }

  function SetOf(s: seq<Text>): set<Text> {
    set t | t in s
  }

  /** The checks that follow the entry loop, in order. */
  function SetErrors(a: Archive, m: Manifest, entryCount: nat, listed: seq<Text>, total: nat): Errors {
    var files := FileNames(a.members);
    var duplicates := FirstOf(Repeated(Absent(listed, {}), multiset(listed)), SAMPLE_LIMIT);
    var unexpected := FirstOf(Absent(files, SetOf(Prefixed(listed)) + {MANIFEST}), SAMPLE_LIMIT);
    var missing := FirstOf(Absent([MANIFEST] + Prefixed(listed), SetOf(files)), SAMPLE_LIMIT);
    When(duplicates != [], DuplicatePaths(duplicates))
    + When(CollisionKeys(listed, a.fold) != [], PathCollisions)
    + When(exists r :: r in REQUIRED && r !in listed, RequiredMissing)
    + When(unexpected != [], UnlistedMembers(unexpected))
    + When(missing != [], MissingMembers(missing))
    + When(m.fileCount != Some(entryCount), FileCountMismatch)
    + When(m.totalSize != Some(total), TotalSizeMismatch)
  }

  method CheckSets(
    a: Archive, m: Manifest, entryCount: nat, listed: seq<Text>, total: nat, errors: Collector<BindError>)
    requires errors.Valid()
    modifies errors
    ensures errors.Valid()
    ensures Grew(old(errors.history), errors.history, SetErrors(a, m, entryCount, listed, total))
  {
    hide Repeated, Absent, CollisionKeys, Grew, FirstOf, FileNames, AreSortedGroups, When;
    GrewNot(errors.history);
    var duplicates := RepeatedSample(listed);
    var groups, _ := PortableNameCollisions(listed, a.fold, SAMPLE_LIMIT, SAMPLE_LIMIT);
    var files := FileNames(a.members);
    var unexpected := BoundedAbsentTextSample(files, SetOf(Prefixed(listed)) + {MANIFEST}, SAMPLE_LIMIT);
    var missing := BoundedAbsentTextSample([MANIFEST] + Prefixed(listed), SetOf(files), SAMPLE_LIMIT);
    var found :=
      When(duplicates != [], DuplicatePaths(duplicates))
      + When(groups != [], PathCollisions)
      + When(exists r :: r in REQUIRED && r !in listed, RequiredMissing)
      + When(unexpected != [], UnlistedMembers(unexpected))
      + When(missing != [], MissingMembers(missing))
      + When(m.fileCount != Some(entryCount), FileCountMismatch)
      + When(m.totalSize != Some(total), TotalSizeMismatch);
    assert found == SetErrors(a, m, entryCount, listed, total);
    Report(errors, found, errors.history, []);
    assert [] + found == found;
  }

  // ----- the checks on names that precede the manifest -----

  /** `_is_nondecreasing_text`. */
  predicate IsNondecreasing(names: seq<Text>) {
    forall i :: 0 <= i < |names| - 1 ==> !LexLess(names[i + 1], names[i])
  }

  function UnsafeNames(a: Archive, names: seq<Text>): seq<Text> {
    if names == [] then []
    else
      var last := names[|names| - 1];
      UnsafeNames(a, names[..|names| - 1]) + if a.safe(last) then [] else [last]
  }

  /** What `of` says of the members with a property, in order. */
  function Picked<T>(members: seq<Member>, has: Member -> bool, of: Member -> T): seq<T> {
    if members == [] then []
    else
      var last := members[|members| - 1];
      Picked(members[..|members| - 1], has, of) + if has(last) then [of(last)] else []
  }

  const NAME_OF: Member -> Text := (m: Member) => m.Name()
  const KIND_OF: Member -> (Text, nat) := (m: Member) => (m.Name(), m.FileType())
  const IS_DIRECTORY: Member -> bool := (m: Member) => m.IsDirectory()
  const IS_ENCRYPTED: Member -> bool := (m: Member) => m.IsEncrypted()
  const IS_FOREIGN: Member -> bool := (m: Member) => !m.IsUnix()
  const IS_SPECIAL: Member -> bool := (m: Member) => m.IsSpecial()

  lemma {:induction false} NoUnsafeNames(a: Archive, names: seq<Text>)
    ensures UnsafeNames(a, names) == [] <==> forall t :: t in names ==> a.safe(t)
  {
    if names != [] {
      NoUnsafeNames(a, names[..|names| - 1]);
      assert names == names[..|names| - 1] + [names[|names| - 1]];
    }
  }

  lemma {:induction false} NonePicked<T>(members: seq<Member>, has: Member -> bool, of: Member -> T)
    ensures Picked(members, has, of) == [] <==> forall m :: m in members ==> !has(m)
  {
    if members != [] {
      NonePicked(members[..|members| - 1], has, of);
      assert members == members[..|members| - 1] + [members[|members| - 1]];
    }
  }

  function NameErrors(a: Archive): Errors {
    var names := Names(a.members);
    var duplicates := FirstOf(Repeated(Absent(names, {}), multiset(names)), SAMPLE_LIMIT);
    var unsafe := FirstOf(UnsafeNames(a, names), SAMPLE_LIMIT);
    When(!IsNondecreasing(names), MemberOrder)
    + When(duplicates != [], DuplicateMembers(duplicates))
    + When(unsafe != [], UnsafeMembers(unsafe))
    + When(CollisionKeys(names, a.fold) != [], MemberCollisions)
  }

  function TypeErrors(members: seq<Member>): Errors {
    var directories := FirstOf(Picked(members, IS_DIRECTORY, NAME_OF), SAMPLE_LIMIT);
    var encrypted := FirstOf(Picked(members, IS_ENCRYPTED, NAME_OF), SAMPLE_LIMIT);
    var foreign := FirstOf(Picked(members, IS_FOREIGN, NAME_OF), SAMPLE_LIMIT);
    var special := FirstOf(Picked(members, IS_SPECIAL, KIND_OF), SAMPLE_LIMIT);
    When(directories != [], DirectoryMembers(directories))
    + When(encrypted != [], EncryptedMembers(encrypted))
    + When(foreign != [], ForeignMembers(foreign))
    + When(special != [], SpecialMembers(special))
  }

  method CheckNames(a: Archive, errors: Collector<BindError>)
    requires errors.Valid()
    modifies errors
    ensures errors.Valid()
    ensures Grew(old(errors.history), errors.history, NameErrors(a) + TypeErrors(a.members))
  {
    hide Repeated, Absent, CollisionKeys, Grew, FirstOf, AreSortedGroups, When, UnsafeNames, Picked, IsNondecreasing;
    GrewNot(errors.history);
    var names := Names(a.members);
    var duplicates := RepeatedSample(names);
    var unsafe := BoundedDiagnosticSample(UnsafeNames(a, names), SAMPLE_LIMIT);
    var groups, _ := PortableNameCollisions(names, a.fold, SAMPLE_LIMIT, SAMPLE_LIMIT);
    var found :=
      When(!IsNondecreasing(names), MemberOrder)
      + When(duplicates != [], DuplicateMembers(duplicates))
      + When(unsafe != [], UnsafeMembers(unsafe))
      + When(groups != [], MemberCollisions);
    assert found == NameErrors(a);
    var types := SampleTypes(a.members);
    found := found + types;
    Report(errors, found, errors.history, []);
    assert [] + found == found;
  }

  method SampleTypes(members: seq<Member>) returns (found: Errors)
    ensures found == TypeErrors(members)
  {
    hide FirstOf, Picked, When;
    var directories := BoundedDiagnosticSample(Picked(members, IS_DIRECTORY, NAME_OF), SAMPLE_LIMIT);
    var encrypted := BoundedDiagnosticSample(Picked(members, IS_ENCRYPTED, NAME_OF), SAMPLE_LIMIT);
    var foreign := BoundedDiagnosticSample(Picked(members, IS_FOREIGN, NAME_OF), SAMPLE_LIMIT);
    var special := BoundedDiagnosticSample(Picked(members, IS_SPECIAL, KIND_OF), SAMPLE_LIMIT);
    return
      When(directories != [], DirectoryMembers(directories))
      + When(encrypted != [], EncryptedMembers(encrypted))
      + When(foreign != [], ForeignMembers(foreign))
      + When(special != [], SpecialMembers(special));
  }

  // ----- what silence means -----

  /** Whether the entry at `index` is bound: a safe path whose one member has its digest, size and mode. */
  ghost predicate IsBound(a: Archive, e: Entry) {
    && e.Entry?
    && !IsUnsafe(a, e.path)
    && CountOf(a, ROOT + e.path) == 1
    && var m := Lookup(a.members, ROOT + e.path);
    && m.stream.Read?
    && e.sha == Some(m.stream.sha) && e.size == Some(m.stream.size)
    && (m.IsUnix() && e.mode.Some? ==> e.mode.value == m.Mode())
  }

  ghost predicate AllBound(a: Archive, entries: seq<Entry>) {
    forall i :: 0 <= i < |entries| ==> IsBound(a, entries[i])
  }

  function Paths(entries: seq<Entry>): (paths: seq<Text>)
    ensures |paths| == |entries|
    ensures forall i :: 0 <= i < |entries| ==> paths[i] == if entries[i].Entry? then entries[i].path else []
  {
    seq(|entries|, i requires 0 <= i < |entries| => if entries[i].Entry? then entries[i].path else [])
  }

  /** The sum of the sizes the entries declare. */
  function DeclaredTotal(entries: seq<Entry>): nat {
    if entries == [] then 0
    else
      var e := entries[0];
      (if e.Entry? && e.size.Some? && e.size.value >= 0 then e.size.value else 0) + DeclaredTotal(entries[1..])
  }

  lemma StepIsBound(a: Archive, index: nat, e: Entry)
    ensures EntryStep(a, index, e).errors == [] <==> IsBound(a, e)
    ensures IsBound(a, e) ==> EntryStep(a, index, e) == Run([], [e.path], e.size.value, false)
  {
    hide IsUnsafe;
    if e.Entry? && CountOf(a, ROOT + e.path) == 1 {
      assert ROOT + e.path in multiset(Names(a.members));
    }
  }

  lemma BoundSize(a: Archive, e: Entry)
    requires IsBound(a, e)
    ensures e.Entry? && e.size.Some? && e.size.value >= 0
  {
  }

  lemma AllBoundCons(a: Archive, e: Entry, rest: seq<Entry>)
    ensures AllBound(a, [e] + rest) <==> IsBound(a, e) && AllBound(a, rest)
  {
    hide IsBound;
    var all := [e] + rest;
    assert forall i :: 0 <= i < |rest| ==> all[i + 1] == rest[i];
    assert all[0] == e;
  }

  lemma PathsCons(e: Entry, rest: seq<Entry>)
    requires e.Entry?
    ensures Paths([e] + rest) == [e.path] + Paths(rest)
  {
  }

  lemma TotalCons(e: Entry, rest: seq<Entry>)
    requires e.Entry? && e.size.Some? && e.size.value >= 0
    ensures DeclaredTotal([e] + rest) == e.size.value + DeclaredTotal(rest)
  {
    assert ([e] + rest)[1..] == rest;
  }

  lemma {:induction false} RunIsBound(a: Archive, entries: seq<Entry>, index: nat)
    requires index <= |entries|
    ensures EntryRun(a, entries, index).errors == [] <==> AllBound(a, entries[index..])
    ensures AllBound(a, entries[index..]) ==>
      EntryRun(a, entries, index) == Run([], Paths(entries[index..]), DeclaredTotal(entries[index..]), false)
    decreases |entries| - index
  {
    hide EntryStep, IsBound;
    if index < |entries| {
      hide AllBound, Paths, DeclaredTotal;
      StepIsBound(a, index, entries[index]);
      RunIsBound(a, entries, index + 1);
      AllBoundCons(a, entries[index], entries[index + 1..]);
      assert entries[index..] == [entries[index]] + entries[index + 1..];
      if IsBound(a, entries[index]) {
        BoundSize(a, entries[index]);
        PathsCons(entries[index], entries[index + 1..]);
        TotalCons(entries[index], entries[index + 1..]);
      }
    }
  }

  /**
   What the manifest binding comes to: every entry is bound to its own member, the paths are
   distinct even when folded, and the archive's files are the manifest and the listed paths.
   */
  ghost predicate Bound(a: Archive, m: Manifest) {
    var paths := Paths(m.files);
    && AllBound(a, m.files)
    && AllDistinct(paths)
    && (forall i, j :: 0 <= i < j < |paths| ==> a.fold(paths[i]) != a.fold(paths[j]))
    && (forall r :: r in REQUIRED ==> r in paths)
    && SetOf(FileNames(a.members)) == SetOf(Prefixed(paths)) + {MANIFEST}
    && m.fileCount == Some(|m.files|)
    && m.totalSize == Some(DeclaredTotal(m.files))
  }

  function BindingErrors(a: Archive, m: Manifest): Errors {
    var run := EntryRun(a, m.files, 0);
    run.errors + if run.stopped then [] else SetErrors(a, m, |m.files|, run.listed, run.total)
  }

  lemma SetsAreBound(a: Archive, m: Manifest, n: nat, listed: seq<Text>, total: nat)
    ensures SetErrors(a, m, n, listed, total) == [] <==>
      && AllDistinct(listed)
      && (forall i, j :: 0 <= i < j < |listed| ==> a.fold(listed[i]) != a.fold(listed[j]))
      && (forall r :: r in REQUIRED ==> r in listed)
      && SetOf(FileNames(a.members)) == SetOf(Prefixed(listed)) + {MANIFEST}
      && m.fileCount == Some(n) && m.totalSize == Some(total)
  {
    hide Repeated, Absent, CollisionKeys, FileNames;
    NoneRepeated(listed);
    NoneCollide(listed, a.fold);
    var files := FileNames(a.members);
    var wanted := [MANIFEST] + Prefixed(listed);
    NoneAbsentMeansSubset(files, SetOf(Prefixed(listed)) + {MANIFEST});
    NoneAbsentMeansSubset(wanted, SetOf(files));
    assert SetOf(wanted) == SetOf(Prefixed(listed)) + {MANIFEST};
  }

  lemma NoneAbsentMeansSubset(candidates: seq<Text>, present: set<Text>)
    ensures FirstOf(Absent(candidates, present), SAMPLE_LIMIT) == [] <==> SetOf(candidates) <= present
  {
    hide Absent;
    AbsentIsDifference(candidates, present);
    var absent := Absent(candidates, present);
    if absent != [] {
      assert absent[0] in absent;
      assert absent[0] in SetOf(candidates) && absent[0] !in present;
    } else {
      forall t | t in candidates ensures t in present {
        assert t !in absent;
      }
    }
  }

  /** The binding reports nothing exactly when the manifest binds the archive. */
  lemma BindingIsExact(a: Archive, m: Manifest)
    ensures BindingErrors(a, m) == [] <==> Bound(a, m)
  {
    hide EntryRun, SetErrors, AllBound, FileNames, IsBound, AllDistinct, DeclaredTotal;
    var run := EntryRun(a, m.files, 0);
    assert m.files[0..] == m.files;
    RunIsBound(a, m.files, 0);
    SetsAreBound(a, m, |m.files|, run.listed, run.total);
  }

  // ----- the whole check -----

  /** A plain file written on Unix. */
  ghost predicate IsPlain(m: Member) {
    !m.IsDirectory() && !m.IsEncrypted() && m.IsUnix() && !m.IsSpecial()
  }

  /** Ordered, distinct and safe names, distinct even when folded, and plain files only. */
  ghost predicate NamesFine(a: Archive) {
    var names := Names(a.members);
    && IsNondecreasing(names)
    && AllDistinct(names)
    && (forall t :: t in names ==> a.safe(t))
    && (forall i, j :: 0 <= i < j < |names| ==> a.fold(names[i]) != a.fold(names[j]))
    && (forall m :: m in a.members ==> IsPlain(m))
  }

  lemma TypesAreExact(members: seq<Member>)
    ensures TypeErrors(members) == [] <==> forall m :: m in members ==> IsPlain(m)
  {
    hide Picked;
    NonePicked(members, IS_DIRECTORY, NAME_OF);
    NonePicked(members, IS_ENCRYPTED, NAME_OF);
    NonePicked(members, IS_FOREIGN, NAME_OF);
    NonePicked(members, IS_SPECIAL, KIND_OF);
  }

  lemma NamesAreExact(a: Archive)
    ensures NameErrors(a) + TypeErrors(a.members) == [] <==> NamesFine(a)
  {
    hide Repeated, Absent, CollisionKeys, UnsafeNames, IsNondecreasing, AllDistinct, TypeErrors, IsPlain;
    NoneRepeated(Names(a.members));
    NoneCollide(Names(a.members), a.fold);
    NoUnsafeNames(a, Names(a.members));
    TypesAreExact(a.members);
  }

  ghost predicate ManifestMemberFine(a: Archive) {
    CountOf(a, MANIFEST) == 1 && MANIFEST in Names(a.members) &&
    var m := Lookup(a.members, MANIFEST); m.IsUnix() ==> m.Mode() == MANIFEST_MODE
  }

  /** What decoding the manifest member gives. */
  datatype Decoded = Failed | JsonNull | OtherValue | Object(manifest: Manifest)

  /**
   When the checks from member names to the manifest's totals find nothing. A manifest that is the
   JSON value `null` is neither an object, so nothing is checked against it, nor anything else, so
   nothing is reported.
   */
  ghost predicate BindingAccepted(a: Archive, decoded: Decoded, reported: seq<nat>, maxEntries: nat) {
    && NamesFine(a) && ManifestMemberFine(a) && reported == []
    && (decoded.JsonNull? ||
        (decoded.Object? && |decoded.manifest.files| <= maxEntries && Bound(a, decoded.manifest)))
  }

  /**
   From member names to the manifest's totals. `reported` is what the serialization, structure and
   semantic checks of the manifest have to say; entries are looked at only if nothing has been
   reported before.
   */
  method VerifyManifestBinding(
    a: Archive, decoded: Decoded, reported: seq<nat>, maxEntries: nat) returns (ok: bool)
    ensures ok <==> BindingAccepted(a, decoded, reported, maxEntries)
  {
    hide NameErrors, TypeErrors, Bound, NamesFine, EntryRun, SetErrors, Contents, Names, Grew;
    var errors := new Collector<BindError>(100);
    ghost var h0 := errors.history;
    CheckNames(a, errors);
    NamesAreExact(a);
    SilentSoFar(errors, h0, NameErrors(a) + TypeErrors(a.members));
    EmptyMeansNothingReported(errors.maximum, errors.history);
    if errors.items != [] {
      return false;
    }
    if CountOf(a, MANIFEST) != 1 {
      return false;
    }
    assert MANIFEST in multiset(Names(a.members));
    var member := Lookup(a.members, MANIFEST);
    if member.IsUnix() && member.Mode() != MANIFEST_MODE {
      errors.Append(ManifestModeNoncanonical);
    }
    if decoded.Failed? {
      errors.Append(ManifestUndecodable);
    }
    ghost var before := errors.history.total;
    for i := 0 to |reported|
      invariant errors.Valid() && errors.history.total == before + i
    {
      errors.Append(Reported(reported[i]));
    }
    EmptyMeansNothingReported(errors.maximum, errors.history);
    if decoded.OtherValue? {
      errors.Append(ManifestNotObject);
      EmptyMeansNothingReported(errors.maximum, errors.history);
    }
    if errors.items != [] || !decoded.Object? {
      return errors.items == [];
    }
    var m := decoded.manifest;
    if |m.files| > maxEntries {
      return false;
    }
    h0 := errors.history;
    BindingIsExact(a, m);
    var run := CheckEntries(a, m.files, errors);
    ghost var walked := EntryRun(a, m.files, 0);
    ghost var h1 := errors.history;
    if !run.stopped {
      CheckSets(a, m, |m.files|, run.listed, run.total, errors);
      GrewTwice(h0, h1, errors.history, walked.errors, SetErrors(a, m, |m.files|, run.listed, run.total));
    }
    assert walked.errors + [] == walked.errors;
    SilentSoFar(errors, h0, BindingErrors(a, m));
    return errors.items == [];
  }

  lemma SilentSoFar(errors: Collector<BindError>, before: History<BindError>, found: Errors)
    requires errors.Valid() && Grew(before, errors.history, found) && before.total == 0
    ensures errors.items == [] <==> found == []
  {
    EmptyMeansNothingReported(errors.maximum, errors.history);
  }

  lemma {:induction false} DistinctCardinality(s: seq<Text>)
    requires AllDistinct(s)
    ensures |SetOf(s)| == |s|
  {
    if s != [] {
      var n := |s| - 1;
      assert AllDistinct(s[..n]);
      DistinctCardinality(s[..n]);
      assert s[n] !in s[..n];
      assert s == s[..n] + [s[n]];
      assert SetOf(s) == SetOf(s[..n]) + {s[n]};
    } else {
      assert SetOf(s) == {};
    }
  }

  /**
   Acceptance accounts for every member: each is the manifest or carries a listed path, and there
   is one member per listed path besides the manifest. Only a manifest that lists itself, under
   its own digest, would share its member.
   */
  lemma MembersAreAccountedFor(a: Archive, m: Manifest)
    requires NamesFine(a) && Bound(a, m)
    ensures SetOf(Names(a.members)) == SetOf(Prefixed(Paths(m.files))) + {MANIFEST}
    ensures |a.members| == |m.files| + if MANIFEST in Prefixed(Paths(m.files)) then 0 else 1
  {
    hide Names, Prefixed, Paths, IsNondecreasing, AllBound, DeclaredTotal, FileNames, AllDistinct;
    var names, listed := Names(a.members), Prefixed(Paths(m.files));
    AllNamesAreFiles(a.members);
    DistinctCardinality(names);
    PrefixedDistinct(Paths(m.files));
    DistinctCardinality(listed);
    assert SetOf(names) == if MANIFEST in listed then SetOf(listed) else SetOf(listed) + {MANIFEST};
  }

  lemma AllNamesAreFiles(members: seq<Member>)
    requires forall m :: m in members ==> IsPlain(m)
    ensures SetOf(Names(members)) == SetOf(FileNames(members))
  {
    hide FileNames;
    FileNamesAre(members);
    var names := Names(members);
    forall t ensures t in names <==> t in FileNames(members) {
      if t in names {
        var i :| 0 <= i < |names| && names[i] == t;
        assert members[i] in members;
      }
      if t in FileNames(members) {
        var x :| x in members && x.Name() == t && !x.IsDirectory();
        var i :| 0 <= i < |members| && members[i] == x;
        assert names[i] == t;
      }
    }
  }

  lemma PrefixedDistinct(paths: seq<Text>)
    requires AllDistinct(paths)
    ensures AllDistinct(Prefixed(paths))
  {
    forall i, j | 0 <= i < j < |paths| ensures Prefixed(paths)[i] != Prefixed(paths)[j] {
      assert (ROOT + paths[i])[|ROOT|..] == paths[i] && (ROOT + paths[j])[|ROOT|..] == paths[j];
    }
  }
}

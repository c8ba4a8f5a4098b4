/**
 Canonical wheels: the writer (canonicalize_distributions.py, `normalize_wheel`) and the two
 validators that judge its output (finalize_release_distributions.py, `_validate_wheel_record` and
 `_validate_wheel_builder_metadata`).
 */
module Wheel {
  import opened Struct
  import opened Utf8
  import opened ArchivePaths
  import opened Csv
  import opened Dates
  import opened Samplers
  import opened TextOrder
  import F = ZipFormat

  type Ascii = c: CodePoint | c < 0x80 witness 0

  /** The base64 text of a payload's SHA-256, which is ASCII. */
  type Digest = bytes -> seq<Ascii>

  datatype Metadata = Metadata(
    createSystem: nat, createVersion: nat, extractVersion: nat, flags: nat, compression: nat,
    dateTime: DateTime, internalAttr: nat, externalAttr: nat, extra: bytes, comment: bytes)

  datatype File = File(name: Text, payload: bytes, metadata: Metadata)

  const REGULAR_0644: nat := 0x81A4_0000 // (stat.S_IFREG | 0o644) << 16

  const RECORD_SUFFIX: Text := TextOf(".dist-info/RECORD")
  const DIST_INFO: Text := TextOf(".dist-info")
  const TEXT_FILES: seq<Text> := [
    TextOf("INSTALLER"), TextOf("METADATA"), TextOf("REQUESTED"), TextOf("WHEEL"),
    TextOf("direct_url.json"), TextOf("entry_points.txt"), TextOf("top_level.txt")]

  predicate EndsWith(t: Text, suffix: Text) {
    |suffix| <= |t| && t[|t| - |suffix|..] == suffix
  }

  function FileNames(files: seq<File>): (names: seq<Text>)
    ensures |names| == |files|
    ensures forall i :: 0 <= i < |files| ==> names[i] == files[i].name
  {
    seq(|files|, i requires 0 <= i < |files| => files[i].name)
  }

  // ----- payloads -----

  const CR_BYTE: byte := 13
  const LF_BYTE: byte := 10

  /** `payload.replace(b"\r\n", b"\n")`. */
  function PairsReplaced(payload: bytes): (r: bytes)
    ensures CR_BYTE !in payload ==> r == payload
  {
    if payload == [] then []
    else
      assert payload == [payload[0]] + payload[1..];
      if payload[0] == CR_BYTE && |payload| > 1 && payload[1] == LF_BYTE then [LF_BYTE] + PairsReplaced(payload[2..])
      else [payload[0]] + PairsReplaced(payload[1..])
  }

  /** `payload.replace(b"\r", b"\n")`. */
  function ReturnsReplaced(payload: bytes): (r: bytes)
    ensures |r| == |payload|
    ensures forall i :: 0 <= i < |payload| ==> r[i] == if payload[i] == CR_BYTE then LF_BYTE else payload[i]
  {
    seq(|payload|, i requires 0 <= i < |payload| => if payload[i] == CR_BYTE then LF_BYTE else payload[i])
  }

  /** `_normalized_lines`: each of the three line endings becomes a single line feed. */
  function NormalizedLines(payload: bytes): (r: bytes)
    ensures CR_BYTE !in r
    ensures CR_BYTE !in payload ==> r == payload
  {
    ReturnsReplaced(PairsReplaced(payload))
  }

  /** What the two replacements do together, ending by ending. */
  lemma EveryLineEnding(rest: bytes, b: byte)
    ensures NormalizedLines([CR_BYTE, LF_BYTE] + rest) == [LF_BYTE] + NormalizedLines(rest)
    ensures (rest == [] || rest[0] != LF_BYTE) ==>
      NormalizedLines([CR_BYTE] + rest) == [LF_BYTE] + NormalizedLines(rest)
    ensures b != CR_BYTE ==> NormalizedLines([b] + rest) == [b] + NormalizedLines(rest)
  {
    var pair, single, other := [CR_BYTE, LF_BYTE] + rest, [CR_BYTE] + rest, [b] + rest;
    assert pair[2..] == rest && single[1..] == rest && other[1..] == rest;
    assert PairsReplaced(pair) == [LF_BYTE] + PairsReplaced(rest);
    assert (rest == [] || rest[0] != LF_BYTE) ==> PairsReplaced(single) == [CR_BYTE] + PairsReplaced(rest);
    assert b != CR_BYTE ==> PairsReplaced(other) == [b] + PairsReplaced(rest);
    ReplacedCons(LF_BYTE, PairsReplaced(rest));
    ReplacedCons(CR_BYTE, PairsReplaced(rest));
    ReplacedCons(b, PairsReplaced(rest));
  }

  lemma ReplacedCons(b: byte, rest: bytes)
    ensures ReturnsReplaced([b] + rest) == [if b == CR_BYTE then LF_BYTE else b] + ReturnsReplaced(rest)
  {
  }

  /** `PurePosixPath(name).parts` below any root: empty and dot components vanish. */
  function PureParts(parts: seq<Text>): seq<Text> {
    if parts == [] then []
    else (if parts[0] == [] || parts[0] == [0x2E] then [] else [parts[0]]) + PureParts(parts[1..])
  }

  /** Whether a member is one of the generated text files of the `.dist-info` directory. */
  predicate IsMetadataText(name: Text) {
    var parts := PureParts(Split(name));
    |parts| >= 2 && EndsWith(parts[|parts| - 2], DIST_INFO) && parts[|parts| - 1] in TEXT_FILES
  }

  function NormalizedPayload(name: Text, payload: bytes): bytes {
    if IsMetadataText(name) then NormalizedLines(payload) else payload
  }

  // ----- RECORD -----

  function Decimal(n: nat): (t: seq<Ascii>) {
    if n < 10 then [0x30 + n] else Decimal(n / 10) + [0x30 + n % 10]
  }

  const SHA256_PREFIX: seq<Ascii> := [0x73, 0x68, 0x61, 0x32, 0x35, 0x36, 0x3D]

  function PayloadOf(payloads: map<Text, bytes>, name: Text): bytes {
    if name in payloads then payloads[name] else []
  }

  function RecordRow(name: Text, payload: bytes, digest: Digest): Row {
    [name, SHA256_PREFIX + digest(payload), Decimal(|payload|)]
  }

  function SelfRow(record: Text): Row {
    [record, [], []]
  }

  function Without(names: seq<Text>, name: Text): seq<Text> {
    if names == [] then []
    else
      var front, last := Without(names[..|names| - 1], name), names[|names| - 1];
      if last == name then front else front + [last]
  }

  /** All names but RECORD's in order, then RECORD. */
  function CanonicalOrder(names: seq<Text>, record: Text): seq<Text> {
    Sorted(Without(names, record)) + [record]
  }

  function RecordRows(names: seq<Text>, payloads: map<Text, bytes>, digest: Digest): (rows: seq<Row>)
    ensures |rows| == |names|
    ensures forall i :: 0 <= i < |names| ==> rows[i] == RecordRow(names[i], PayloadOf(payloads, names[i]), digest)
  {
    seq(|names|, i requires 0 <= i < |names| => RecordRow(names[i], PayloadOf(payloads, names[i]), digest))
  }

  function RecordText(names: seq<Text>, payloads: map<Text, bytes>, record: Text, digest: Digest): Text {
    Print(RecordRows(Sorted(Without(names, record)), payloads, digest) + [SelfRow(record)])
  }

  /** `_wheel_record`: RECORD's bytes; `None` for the UnicodeEncodeError of a name without encoding. */
  function WheelRecord(names: seq<Text>, payloads: map<Text, bytes>, record: Text, digest: Digest): Option<bytes> {
    var text := RecordText(names, payloads, record, digest);
    if Encodable(text) then Some(Encode(text)) else None
  }

  // ----- names -----

  lemma {:induction false} WithoutAre(names: seq<Text>, name: Text)
    ensures forall t :: t in Without(names, name) <==> t in names && t != name
    ensures AllDistinct(names) ==> AllDistinct(Without(names, name))
  {
    if names != [] {
      var front, last := names[..|names| - 1], names[|names| - 1];
      assert names == front + [last];
      WithoutAre(front, name);
      if AllDistinct(names) {
        assert forall i, j :: 0 <= i < j < |front| ==> names[i] != names[j];
        assert last !in front;
      }
    }
  }

  lemma {:induction false} WithoutNothing(names: seq<Text>, name: Text)
    requires name !in names
    ensures Without(names, name) == names
  {
    if names != [] {
      var front, last := names[..|names| - 1], names[|names| - 1];
      assert names == front + [last];
      WithoutNothing(front, name);
    }
  }

  lemma DistinctByCount(names: seq<Text>)
    ensures AllDistinct(names) <==> forall t :: multiset(names)[t] <= 1
  {
    DistinctMeansOnce(names);
    assert forall t :: t in names <==> t in multiset(names);
  }

  /** The canonical order has exactly the names, each once, and keeps itself. */
  lemma CanonicalOrderIs(names: seq<Text>, record: Text)
    requires AllDistinct(names) && record in names
    ensures var order := CanonicalOrder(names, record);
      && (forall t :: t in order <==> t in names)
      && AllDistinct(order) && |order| == |names|
      && CanonicalOrder(order, record) == order
  {
    hide Sorted, Without;
    var rest := Without(names, record);
    var sorted := Sorted(rest);
    var order := sorted + [record];
    WithoutAre(names, record);
    SortedHasSame(rest);
    SortedIsPermutation(rest);
    DistinctByCount(rest);
    DistinctByCount(sorted);
    assert record !in sorted;
    assert Without(order, record) == sorted by {
      WithoutNothing(sorted, record);
      WithoutLast(sorted, record);
    }
    SortedIsSorted(rest);
    SortedAgain(sorted);
    SameSize(names, order);
  }

  lemma WithoutLast(names: seq<Text>, name: Text)
    ensures Without(names + [name], name) == Without(names, name)
  {
    assert (names + [name])[..|names|] == names;
  }

  lemma SameSize(names: seq<Text>, order: seq<Text>)
    requires AllDistinct(names) && AllDistinct(order) && forall t :: t in order <==> t in names
    ensures |names| == |order|
  {
    DistinctByCount(names);
    DistinctByCount(order);
    forall t ensures multiset(names)[t] == multiset(order)[t] {
      assert t in names <==> t in multiset(names);
      assert t in order <==> t in multiset(order);
    }
    assert multiset(names) == multiset(order);
    assert |multiset(names)| == |names| && |multiset(order)| == |order|;
  }

  // ----- RECORD and its validator -----

  ghost predicate AllMembersLegal(u: Unicode, names: seq<Text>) {
    forall n :: n in names ==> MemberParts(u, n).Some?
  }

  /** What the validator stands for: legal names, and RECORD byte for byte what the writer makes. */
  ghost predicate HasCanonicalRecord(
    u: Unicode, names: seq<Text>, payloads: map<Text, bytes>, record: Text, digest: Digest)
  {
    && AllMembersLegal(u, names)
    && WheelRecord(names, payloads, record, digest) == Some(PayloadOf(payloads, record))
  }

  /** What the validator's separate checks see in the rows of a canonical RECORD. */
  ghost predicate GoodRows(
    u: Unicode, rows: seq<Row>, names: seq<Text>, payloads: map<Text, bytes>, record: Text, digest: Digest)
  {
    && (forall i :: 0 <= i < |rows| ==> |rows[i]| == 3 && MemberParts(u, rows[i][0]).Some? && rows[i][0] in names)
    && (forall i, j :: 0 <= i < j < |rows| ==> rows[i][0] != rows[j][0])
    && (forall n :: n in names ==> exists i :: 0 <= i < |rows| && rows[i][0] == n)
    && (forall i :: 0 <= i < |rows| ==>
          rows[i] == if rows[i][0] == record then SelfRow(record)
                     else RecordRow(rows[i][0], PayloadOf(payloads, rows[i][0]), digest))
  }

  lemma CanonicalRowsAreGood(
    u: Unicode, names: seq<Text>, payloads: map<Text, bytes>, record: Text, digest: Digest)
    requires AllDistinct(names) && record in names && AllMembersLegal(u, names)
    ensures var sorted := Sorted(Without(names, record));
      GoodRows(u, RecordRows(sorted, payloads, digest) + [SelfRow(record)], names, payloads, record, digest)
  {
    hide Sorted, Without, RecordRow, MemberParts;
    var order := CanonicalOrder(names, record);
    CanonicalOrderIs(names, record);
    var sorted := Sorted(Without(names, record));
    var rows := RecordRows(sorted, payloads, digest) + [SelfRow(record)];
    RowNames(sorted, payloads, record, digest);
    assert forall i :: 0 <= i < |sorted| ==> order[i] == sorted[i];
    forall i | 0 <= i < |sorted| ensures order[i] != record {
      assert order[i] != order[|sorted|];
    }
    hide CanonicalOrder, RecordRows, SelfRow, PayloadOf;
    forall i | 0 <= i < |rows| ensures rows[i][0] in names {
      assert order[i] in order;
    }
    forall n | n in names ensures exists i :: 0 <= i < |rows| && rows[i][0] == n {
      var i :| 0 <= i < |order| && order[i] == n;
      assert rows[i][0] == n;
    }
  }

  lemma RowNames(sorted: seq<Text>, payloads: map<Text, bytes>, record: Text, digest: Digest)
    ensures var rows, order := RecordRows(sorted, payloads, digest) + [SelfRow(record)], sorted + [record];
      && |rows| == |order|
      && (forall i :: 0 <= i < |rows| ==> |rows[i]| == 3 && rows[i][0] == order[i])
      && (forall i :: 0 <= i < |sorted| ==> rows[i] == RecordRow(sorted[i], PayloadOf(payloads, sorted[i]), digest))
      && rows[|sorted|] == SelfRow(record)
  {
  }

  /** A canonical RECORD decodes and parses back to its rows. */
  lemma CanonicalRecordReads(
    u: Unicode, names: seq<Text>, payloads: map<Text, bytes>, record: Text, digest: Digest)
    requires AllDistinct(names) && record in names && HasCanonicalRecord(u, names, payloads, record, digest)
    ensures var text := Decode(PayloadOf(payloads, record));
      text.Some? && GoodRows(u, ParseRows(text.value), names, payloads, record, digest)
  {
    hide Encode, Decode, Print, ParseRows, GoodRows, RecordRows, Sorted, Without;
    var rows := RecordRows(Sorted(Without(names, record)), payloads, digest) + [SelfRow(record)];
    CanonicalRowsAreGood(u, names, payloads, record, digest);
    ParseOfPrint(rows);
    DecodeOfEncode(Print(rows));
  }

  /** `_validate_wheel_record` accepts exactly the canonical RECORD over legal names. */
  method ValidateWheelRecord(
    u: Unicode, names: seq<Text>, payloads: map<Text, bytes>, record: Text, digest: Digest) returns (ok: bool)
    requires AllDistinct(names) && record in names
    ensures ok <==> HasCanonicalRecord(u, names, payloads, record, digest)
  {
    hide Decode, ParseRows, RecordText, MemberParts, RecordRow;
    var text := Decode(PayloadOf(payloads, record));
    ghost var canonical := HasCanonicalRecord(u, names, payloads, record, digest);
    if canonical {
      CanonicalRecordReads(u, names, payloads, record, digest);
    }
    if text.None? {
      return false;
    }
    var rows := ParseRows(text.value);
    assert canonical ==> GoodRows(u, rows, names, payloads, record, digest);
    var parsed: map<Text, Row> := map[];
    for i := 0 to |rows|
      invariant forall p :: p in parsed ==> MemberParts(u, p).Some?
      invariant forall j :: 0 <= j < i ==> |rows[j]| == 3 && rows[j][0] in parsed && parsed[rows[j][0]] == rows[j]
      invariant forall p :: p in parsed ==> exists j :: 0 <= j < i && rows[j][0] == p
    {
      if |rows[i]| != 3 || MemberParts(u, rows[i][0]).None? || rows[i][0] in parsed {
        return false;
      }
      parsed := parsed[rows[i][0] := rows[i]];
    }
    if !(forall p :: p in parsed.Keys ==> p in names) || !(forall n :: n in names ==> n in parsed) {
      return false;
    }
    for i := 0 to |names|
    {
      var row := parsed[names[i]];
      if names[i] == record {
        if row != SelfRow(record) {
          return false;
        }
      } else if row != RecordRow(names[i], PayloadOf(payloads, names[i]), digest) {
        return false;
      }
    }
    return WheelRecord(names, payloads, record, digest) == Some(PayloadOf(payloads, record));
  }

  /** The metadata every canonical member carries, as read back from the archive. */
  function CanonicalMetadata(name: Text, epoch: nat): Metadata {
    Metadata(3, 20, 20, F.ExpectedFlags(name), F.STORED, FinalizerTime(epoch), 0, REGULAR_0644, [], [])
  }

  /** `_validate_wheel_builder_metadata`. */
  predicate HasBuilderMetadata(files: seq<File>, record: Text, epoch: nat) {
    && FileNames(files) == CanonicalOrder(FileNames(files), record)
    && forall f :: f in files ==> f.metadata == CanonicalMetadata(f.name, epoch)
  }

  // ----- the writer -----

  /**
   What `zipfile` makes of a member written with the canonical attributes: the UTF-8 flag where the
   name needs it, and the timestamp as the DOS format keeps it.
   */
  function WrittenMetadata(name: Text, epoch: nat): Metadata {
    Metadata(3, 20, 20, F.ExpectedFlags(name), F.STORED, DecodeDos(EncodeDos(FinalizerTime(epoch))), 0,
      REGULAR_0644, [], [])
  }

  function RecordNames(names: seq<Text>): seq<Text> {
    if names == [] then []
    else
      var front, last := RecordNames(names[..|names| - 1]), names[|names| - 1];
      if EndsWith(last, RECORD_SUFFIX) then front + [last] else front
  }

  /** `{info.filename: source.read(info) for info in infos}`. */
  function PayloadsOf(files: seq<File>): (payloads: map<Text, bytes>)
    ensures forall n :: n in payloads <==> n in FileNames(files)
  {
    if files == [] then map[]
    else
      var front, last := files[..|files| - 1], files[|files| - 1];
      assert FileNames(files) == FileNames(front) + [last.name];
      PayloadsOf(front)[last.name := last.payload]
  }

  /** The same dictionary with the metadata texts normalized. */
  function NormalizedPayloads(files: seq<File>): map<Text, bytes> {
    var payloads := PayloadsOf(files);
    map n | n in payloads :: NormalizedPayload(n, payloads[n])
  }

  function WrittenFiles(order: seq<Text>, payloads: map<Text, bytes>, epoch: nat): (files: seq<File>)
    ensures |files| == |order|
    ensures forall i :: 0 <= i < |order| ==>
      files[i] == File(order[i], PayloadOf(payloads, order[i]), WrittenMetadata(order[i], epoch))
  {
    seq(|order|, i requires 0 <= i < |order| =>
      File(order[i], PayloadOf(payloads, order[i]), WrittenMetadata(order[i], epoch)))
  }

  /** The wheels that can be normalized: distinct names, no directory, one RECORD. */
  ghost predicate Normalizable(files: seq<File>) {
    var names := FileNames(files);
    && AllDistinct(names)
    && (forall n :: n in names ==> !EndsWithSlash(n))
    && |RecordNames(names)| == 1
  }

  /** `normalize_wheel`, with `None` where it raises. */
  ghost function Normalized(files: seq<File>, epoch: nat, digest: Digest): Option<seq<File>> {
    if !Normalizable(files) then None
    else
      var names := FileNames(files);
      var record, payloads := RecordNames(names)[0], NormalizedPayloads(files);
      match WheelRecord(names, payloads, record, digest)
      case None => None
      case Some(bytes) =>
        Some(WrittenFiles(CanonicalOrder(names, record), payloads[record := bytes], epoch))
  }

  /** The loop that fills the payload dictionary. */
  method ReadPayloads(files: seq<File>) returns (payloads: map<Text, bytes>)
    ensures payloads == PayloadsOf(files)
  {
    payloads := map[];
    for i := 0 to |files|
      invariant payloads == PayloadsOf(files[..i])
    {
      assert files[..i + 1][..i] == files[..i];
      payloads := payloads[files[i].name := files[i].payload];
    }
    assert files[..|files|] == files;
  }

  /** The loop that rewrites it in place. */
  method NormalizeTexts(names: seq<Text>, raw: map<Text, bytes>) returns (payloads: map<Text, bytes>)
    requires AllDistinct(names) && forall n :: n in raw <==> n in names
    ensures payloads == map n | n in raw :: NormalizedPayload(n, raw[n])
  {
    hide NormalizedPayload;
    payloads := raw;
    for i := 0 to |names|
      invariant payloads.Keys == raw.Keys
      invariant forall n :: n in raw ==> payloads[n] == if n in names[..i] then NormalizedPayload(n, raw[n]) else raw[n]
    {
      assert names[i] !in names[..i] && names[..i + 1] == names[..i] + [names[i]];
      assert names[i] in names;
      payloads := payloads[names[i] := NormalizedPayload(names[i], payloads[names[i]])];
    }
    assert names[..|names|] == names;
  }

  /** `_write_canonical_wheel`: one member after another. */
  method WriteCanonicalWheel(order: seq<Text>, payloads: map<Text, bytes>, epoch: nat) returns (written: seq<File>)
    ensures written == WrittenFiles(order, payloads, epoch)
  {
    hide WrittenMetadata, PayloadOf;
    written := [];
    for i := 0 to |order|
      invariant |written| == i
      invariant forall j :: 0 <= j < i ==>
        written[j] == File(order[j], PayloadOf(payloads, order[j]), WrittenMetadata(order[j], epoch))
    {
      written := written + [File(order[i], PayloadOf(payloads, order[i]), WrittenMetadata(order[i], epoch))];
    }
  }

  method NormalizeWheel(files: seq<File>, epoch: nat, digest: Digest) returns (r: Option<seq<File>>)
    ensures r == Normalized(files, epoch, digest)
  {
    hide WheelRecord, CanonicalOrder, PayloadsOf, NormalizedPayload, EndsWith, WrittenFiles, RecordNames;
    var names := FileNames(files);
    if exists i, j :: 0 <= i < j < |names| && names[i] == names[j] {
      return None;
    }
    if exists n :: n in names && EndsWithSlash(n) {
      return None;
    }
    var recordNames := RecordNames(names);
    if |recordNames| != 1 {
      return None;
    }
    var record := recordNames[0];
    var raw := ReadPayloads(files);
    var payloads := NormalizeTexts(names, raw);
    assert payloads == NormalizedPayloads(files);
    var recordBytes := WheelRecord(names, payloads, record, digest);
    if recordBytes.None? {
      return None;
    }
    payloads := payloads[record := recordBytes.value];
    var written := WriteCanonicalWheel(CanonicalOrder(names, record), payloads, epoch);
    return Some(written);
  }

  // ----- the writer against the validators -----

  lemma {:induction false} RecordNamesAre(names: seq<Text>)
    ensures forall t :: t in RecordNames(names) <==> t in names && EndsWith(t, RECORD_SUFFIX)
  {
    hide EndsWith;
    if names != [] {
      RecordNamesAre(names[..|names| - 1]);
      assert names == names[..|names| - 1] + [names[|names| - 1]];
    }
  }

  lemma {:induction false} PayloadsRead(files: seq<File>)
    requires AllDistinct(FileNames(files))
    ensures forall i :: 0 <= i < |files| ==>
      files[i].name in PayloadsOf(files) && PayloadsOf(files)[files[i].name] == files[i].payload
  {
    if files != [] {
      var front, last := files[..|files| - 1], files[|files| - 1];
      var names := FileNames(files);
      assert FileNames(front) == names[..|front|];
      assert names == FileNames(front) + [last.name];
      assert forall i, j :: 0 <= i < j < |front| ==> names[i] != names[j];
      forall i | 0 <= i < |front| ensures files[i].name != last.name {
        assert names[i] != names[|front|];
      }
      hide FileNames, AllDistinct;
      PayloadsRead(front);
    }
  }

  /** RECORD depends only on the names as a set and on the payloads of the other members. */
  lemma SameRecord(
    names: seq<Text>, others: seq<Text>, payloads: map<Text, bytes>, otherPayloads: map<Text, bytes>,
    record: Text, digest: Digest)
    requires CanonicalOrder(names, record) == CanonicalOrder(others, record)
    requires forall n :: n in Sorted(Without(names, record)) ==> PayloadOf(payloads, n) == PayloadOf(otherPayloads, n)
    ensures WheelRecord(names, payloads, record, digest) == WheelRecord(others, otherPayloads, record, digest)
  {
    hide Sorted, Without, Print, Encode, RecordRow, PayloadOf;
    var sorted, otherSorted := Sorted(Without(names, record)), Sorted(Without(others, record));
    assert (sorted + [record])[..|sorted|] == sorted && (otherSorted + [record])[..|otherSorted|] == otherSorted;
    assert |sorted + [record]| == |otherSorted + [record]|;
    assert sorted == otherSorted;
    assert RecordRows(sorted, payloads, digest) == RecordRows(otherSorted, otherPayloads, digest);
  }

  /**
   Whatever wheel with legal names the writer accepts, both validators accept what it writes, for
   every 32-bit epoch.
   */
  lemma WriterMeetsValidators(u: Unicode, files: seq<File>, epoch: nat, digest: Digest)
    requires epoch <= MAX_EPOCH
    requires Normalized(files, epoch, digest).Some? && AllMembersLegal(u, FileNames(files))
    ensures var written, record := Normalized(files, epoch, digest).value, RecordNames(FileNames(files))[0];
      && AllDistinct(FileNames(written)) && record in FileNames(written)
      && HasBuilderMetadata(written, record, epoch)
      && HasCanonicalRecord(u, FileNames(written), PayloadsOf(written), record, digest)
  {
    hide Sorted, Without, RecordText, EndsWith, FinalizerTime, NormalizedPayload, NormalizedPayloads, RecordNames,
      MemberParts, PayloadsOf;
    var names := FileNames(files);
    var record, payloads := RecordNames(names)[0], NormalizedPayloads(files);
    RecordNamesAre(names);
    assert RecordNames(names)[0] in RecordNames(names);
    CanonicalOrderIs(names, record);
    var order := CanonicalOrder(names, record);
    var recordBytes := WheelRecord(names, payloads, record, digest).value;
    var all := payloads[record := recordBytes];
    var written := WrittenFiles(order, all, epoch);
    assert FileNames(written) == order;
    TimestampsAgree(epoch);
    PayloadsRead(written);
    forall n | n in order ensures PayloadOf(PayloadsOf(written), n) == PayloadOf(all, n) {
      var i :| 0 <= i < |order| && order[i] == n;
      assert written[i].name == n;
    }
    OthersKeep(names, payloads, record, recordBytes);
    forall n | n in Sorted(Without(names, record)) ensures PayloadOf(payloads, n) == PayloadOf(PayloadsOf(written), n) {
      assert n in order;
    }
    SameRecord(names, order, payloads, PayloadsOf(written), record, digest);
    assert record in order;
  }

  lemma OthersKeep(names: seq<Text>, payloads: map<Text, bytes>, record: Text, recordBytes: bytes)
    ensures var sorted := Sorted(Without(names, record));
      forall n :: n in sorted ==>
        n in sorted + [record] && PayloadOf(payloads[record := recordBytes], n) == PayloadOf(payloads, n)
  {
    WithoutAre(names, record);
    SortedHasSame(Without(names, record));
  }

  lemma {:induction false} RecordNamesDistinct(names: seq<Text>)
    requires AllDistinct(names)
    ensures AllDistinct(RecordNames(names))
  {
    hide EndsWith;
    if names != [] {
      var front, last := names[..|names| - 1], names[|names| - 1];
      assert names == front + [last];
      assert forall i, j :: 0 <= i < j < |front| ==> names[i] != names[j];
      assert last !in front;
      RecordNamesDistinct(front);
      RecordNamesAre(front);
    }
  }

  /** The same names in another order have the same one RECORD. */
  lemma OneRecord(names: seq<Text>, order: seq<Text>)
    requires |RecordNames(names)| == 1 && AllDistinct(order) && forall t :: t in order <==> t in names
    ensures RecordNames(order) == RecordNames(names)
  {
    hide RecordNames, EndsWith;
    RecordNamesAre(names);
    RecordNamesAre(order);
    RecordNamesDistinct(order);
    var found, known := RecordNames(order), RecordNames(names);
    assert |found| > 1 ==> found[0] != found[1];
    var record := known[0];
    assert known == [record] && record in known;
    forall i | 0 <= i < |found| ensures found[i] == record {
      assert found[i] in found;
      assert found[i] in known;
    }
    assert record in found;
  }

  lemma NormalizedTwice(name: Text, payload: bytes)
    ensures NormalizedPayload(name, NormalizedPayload(name, payload)) == NormalizedPayload(name, payload)
  {
    hide IsMetadataText;
  }

  lemma NormalizedPayloadsAre(files: seq<File>)
    requires AllDistinct(FileNames(files))
    ensures forall i :: 0 <= i < |files| ==>
      && files[i].name in NormalizedPayloads(files)
      && NormalizedPayloads(files)[files[i].name] == NormalizedPayload(files[i].name, files[i].payload)
  {
    hide NormalizedPayload, PayloadsOf;
    PayloadsRead(files);
  }

  /** Every normalized payload is one that normalizing leaves alone. */
  lemma PayloadsAreNormal(files: seq<File>, n: Text)
    requires AllDistinct(FileNames(files)) && n in FileNames(files)
    ensures NormalizedPayload(n, PayloadOf(NormalizedPayloads(files), n)) == PayloadOf(NormalizedPayloads(files), n)
  {
    hide NormalizedPayload;
    NormalizedPayloadsAre(files);
    var i :| 0 <= i < |files| && files[i].name == n;
    NormalizedTwice(n, files[i].payload);
  }

  /** What a second pass reads from a written wheel: the same payloads, RECORD apart. */
  lemma ReadAgain(order: seq<Text>, payloads: map<Text, bytes>, epoch: nat, n: Text)
    requires AllDistinct(order) && n in order
    requires NormalizedPayload(n, PayloadOf(payloads, n)) == PayloadOf(payloads, n)
    ensures PayloadOf(NormalizedPayloads(WrittenFiles(order, payloads, epoch)), n) == PayloadOf(payloads, n)
  {
    hide NormalizedPayload, WrittenMetadata;
    var written := WrittenFiles(order, payloads, epoch);
    assert FileNames(written) == order;
    NormalizedPayloadsAre(written);
    var i :| 0 <= i < |order| && order[i] == n;
    assert written[i].name == n;
  }

  /** A written wheel can be normalized again, under the same RECORD. */
  lemma WrittenIsNormalizable(files: seq<File>, order: seq<Text>, payloads: map<Text, bytes>, epoch: nat)
    requires Normalizable(files) && order == CanonicalOrder(FileNames(files), RecordNames(FileNames(files))[0])
    ensures var record, written := RecordNames(FileNames(files))[0], WrittenFiles(order, payloads, epoch);
      && record in FileNames(files)
      && FileNames(written) == order && AllDistinct(order)
      && CanonicalOrder(order, record) == order
      && Normalizable(written) && RecordNames(order)[0] == record
  {
    hide CanonicalOrder, RecordNames, EndsWith, EndsWithSlash, WrittenMetadata, PayloadOf;
    var names := FileNames(files);
    RecordNamesAre(names);
    assert RecordNames(names)[0] in RecordNames(names);
    CanonicalOrderIs(names, RecordNames(names)[0]);
    assert FileNames(WrittenFiles(order, payloads, epoch)) == order;
    OneRecord(names, order);
  }

  /** All payloads a second pass reads from a written wheel, RECORD's aside, are those it was written from. */
  lemma PayloadsReadAgain(files: seq<File>, order: seq<Text>, record: Text, recordBytes: bytes, epoch: nat, n: Text)
    requires AllDistinct(FileNames(files)) && record in FileNames(files)
    requires order == CanonicalOrder(FileNames(files), record)
    requires n in Sorted(Without(FileNames(files), record))
    ensures var payloads := NormalizedPayloads(files);
      var again := NormalizedPayloads(WrittenFiles(order, payloads[record := recordBytes], epoch));
      && PayloadOf(payloads, n) == PayloadOf(again, n)
      && PayloadOf(payloads[record := recordBytes], n) == PayloadOf(payloads, n)
  {
    hide Sorted, Without, NormalizedPayload, NormalizedPayloads, WrittenFiles, PayloadOf;
    var names, payloads := FileNames(files), NormalizedPayloads(files);
    CanonicalOrderIs(names, record);
    OthersKeep(names, payloads, record, recordBytes);
    WithoutAre(names, record);
    SortedHasSame(Without(names, record));
    PayloadsAreNormal(files, n);
    ReadAgain(order, payloads[record := recordBytes], epoch, n);
  }

  /** Normalizing a normalized wheel changes nothing. */
  lemma NormalizingTwice(files: seq<File>, epoch: nat, digest: Digest)
    requires Normalized(files, epoch, digest).Some?
    ensures Normalized(Normalized(files, epoch, digest).value, epoch, digest) == Normalized(files, epoch, digest)
  {
    hide Sorted, Without, WheelRecord, NormalizedPayloads, RecordNames, WrittenFiles, Normalizable, PayloadOf,
      AllDistinct;
    var names := FileNames(files);
    NormalizableNames(files);
    var record, payloads := RecordNames(names)[0], NormalizedPayloads(files);
    var order := CanonicalOrder(names, record);
    var recordBytes := WheelRecord(names, payloads, record, digest).value;
    var all := payloads[record := recordBytes];
    var again := NormalizedPayloads(WrittenFiles(order, all, epoch));
    WrittenIsNormalizable(files, order, all, epoch);
    var sorted := Sorted(Without(names, record));
    forall n | n in sorted
      ensures PayloadOf(payloads, n) == PayloadOf(again, n)
      ensures PayloadOf(all, n) == PayloadOf(again[record := recordBytes], n)
    {
      PayloadsReadAgain(files, order, record, recordBytes, epoch, n);
      OthersKeep(names, again, record, recordBytes);
    }
    SameRecord(names, order, payloads, again, record, digest);
    assert order[..|order| - 1] == sorted;
    SameWritten(order, all, again[record := recordBytes], record, recordBytes, epoch);
  }

  lemma NormalizableNames(files: seq<File>)
    requires Normalizable(files)
    ensures AllDistinct(FileNames(files)) && |RecordNames(FileNames(files))| == 1
  {
  }

  lemma SameWritten(
    order: seq<Text>, all: map<Text, bytes>, again: map<Text, bytes>, record: Text, recordBytes: bytes, epoch: nat)
    requires order != [] && order[|order| - 1] == record
    requires record in all && all[record] == recordBytes && record in again && again[record] == recordBytes
    requires forall n :: n in order[..|order| - 1] ==> PayloadOf(all, n) == PayloadOf(again, n)
    ensures WrittenFiles(order, all, epoch) == WrittenFiles(order, again, epoch)
  {
    hide WrittenMetadata;
    forall i | 0 <= i < |order| ensures PayloadOf(all, order[i]) == PayloadOf(again, order[i]) {
      if i < |order| - 1 {
        assert order[i] in order[..|order| - 1];
      }
    }
  }
}

/**
 The full envelope check of a bundle: end records, central records against the parsed members,
 and local records in offset order. Every function below yields the diagnostics of one step.
 */
module ZipEnvelope {
  import opened Struct
  import opened Utf8
  import opened ZipFormat
  import opened ZipExtra
  import opened ZipPreflight
  import opened BoundedErrors
  import opened StableSort

  datatype EnvelopeError =
    | EocdMissing | BytesAfterEnd | CommentNotAllowed | MultiDiskZip
    | MultiDiskZip64 | Zip64EocdMissing | Zip64ExtensibleData | Zip64Gap | Zip64VersionNoncanonical
    | Zip64Unneeded | LegacyEntryCount | LegacyDirectoryFields | Zip64EocdRequired
    | EntryCountMismatch | CentralBoundsInvalid | CentralRecordTruncated | CentralGap
    | CentralNotContiguous | LocalRegionNotContiguous
    | NameDecodeFailed | MemberComment(member: Text) | DataDescriptor(member: Text)
    | FlagsNotAllowed(member: Text) | CompressionNotAllowed(member: Text)
    | FlagsNoncanonical(member: Text) | CompressionNoncanonical(member: Text)
    | TimestampNoncanonical(member: Text) | DiskStart(member: Text)
    | CentralZip64Layout(member: Text) | UnapprovedExtra(member: Text, detail: ExtraError)
    | OrderMismatch(member: Text) | CentralMetadataMismatch(member: Text)
    | MetadataNoncanonical(member: Text)
    | LocalMemberGap(member: Text) | LocalHeaderInvalid(member: Text)
    | LocalHeaderTruncated(member: Text) | LocalNameMismatch(member: Text)
    | LocalMetadataMismatch(member: Text) | LocalMetadataNoncanonical(member: Text)
    | LocalZip64Layout(member: Text) | LocalSizeMismatch(member: Text)

  type Errors = seq<EnvelopeError>

  function When(condition: bool, error: EnvelopeError): (errors: Errors)
    ensures errors == [] <==> !condition
  {
    if condition then [error] else []
  }

  /** Either a scan stops early with its diagnostics, or it has found the central directory. */
  datatype EndScan =
    | Stopped(errors: Errors)
    | Located(errors: Errors, g: Geometry)

  function Zip64Problems(file: bytes, eocd: nat, v: seq<nat>, before: Errors): EndScan
    requires |v| == 8 && HasLocator(file, eocd)
  {
    HeaderWidths();
    var l := Unpack(ZIP64_LOCATOR, file[eocd - 20..eocd]);
    var record := ReadExactAt(file, l[2], 56);
    var disks := before + When(l[1] != 0 || l[3] != 1, MultiDiskZip64);
    if record.None? then Stopped(disks + [Zip64EocdMissing])
    else
      var z := Unpack(ZIP64_END_RECORD, record.value);
      if z[0] != ZIP64_END_SIGNATURE then Stopped(disks + [Zip64EocdMissing])
      else
        var errors := disks
          + When(z[1] != 44, Zip64ExtensibleData)
          + When(l[2] + 12 + z[1] != eocd - 20, Zip64Gap)
          + When(z[2] != 45 || z[3] != 45, Zip64VersionNoncanonical)
          + When(z[4] != 0 || z[5] != 0 || z[6] != z[7], MultiDiskZip64)
          + When(!EndZip64Required(z[7], z[8], z[9]), Zip64Unneeded)
          + When(v[3] != Min(z[7], UINT16_MAX) || v[4] != Min(z[7], UINT16_MAX), LegacyEntryCount)
          + When(v[5] != Min(z[8], UINT32_MAX) || v[6] != Min(z[9], UINT32_MAX), LegacyDirectoryFields);
        BoundsProblems(file, Geometry(z[9], z[8], z[7]), l[2], errors)
  }

  function BoundsProblems(file: bytes, g: Geometry, boundary: nat, before: Errors): EndScan {
    var end := g.offset + g.size;
    Located(before + When(end != boundary || end > |file|, CentralBoundsInvalid), g)
  }

  function EndProblems(file: bytes): EndScan {
    var tail := file[TailStart(file)..];
    var relative := EndOffset(tail);
    if relative == -1 then Stopped([EocdMissing])
    else
      var v, eocd := EndFields(tail, relative), TailStart(file) + relative;
      var errors :=
        When(eocd + 22 + v[7] != |file|, BytesAfterEnd)
        + When(v[7] != 0, CommentNotAllowed)
        + When(v[1] != 0 || v[2] != 0 || v[3] != v[4], MultiDiskZip);
      if HasLocator(file, eocd) then Zip64Problems(file, eocd, v, errors)
      else
        BoundsProblems(file, Geometry(v[6], v[5], v[4]), eocd,
          errors + When(EndZip64Required(v[4], v[5], v[6]), Zip64EocdRequired))
  }

  const INVALID_NAME: Text := [0x3C, 0x69, 0x6E, 0x76, 0x61, 0x6C, 0x69, 0x64, 0x3E]

  predicate SizesNeedZip64(uncompressed: nat, compressed: nat) {
    CentralZip64Required(uncompressed) || CentralZip64Required(compressed)
  }

  function Saturated(needed: bool, value: nat): nat {
    if needed then UINT32_MAX else value
  }

  /** Diagnostics of one central record `v` with its variable part, against its member if there is one. */
  function CentralProblems(v: seq<nat>, variable: bytes, info: Option<ZipInfo>): Errors
    requires |v| == 17 && |variable| == v[10] + v[11] + v[12]
  {
    var decoded := DecodeFilename(variable[..v[10]], v[3]);
    var name := if decoded.Some? then decoded.value else INVALID_NAME;
    var extra := variable[v[10]..v[10] + v[11]];
    var uncompressed := if info.Some? then info.value.fileSize else v[9];
    var compressed := if info.Some? then info.value.compressSize else v[8];
    var offset := if info.Some? then info.value.headerOffset else v[16];
    var sizes64, offset64 := SizesNeedZip64(uncompressed, compressed), CentralZip64Required(offset);
    var extraError := ExtraErrorOf(extra,
      RequiredValues(v[9], v[8], uncompressed, compressed, Some(v[16]), Some(offset), Some(v[13])));
    When(decoded.None?, NameDecodeFailed)
    + When(v[12] != 0, MemberComment(name))
    + When(v[3] / 8 % 2 == 1, DataDescriptor(name))
    + When(v[3] != 0 && v[3] != 0x800, FlagsNotAllowed(name))
    + When(v[4] != STORED && v[4] != DEFLATED, CompressionNotAllowed(name))
    + When(v[3] != ExpectedFlags(name), FlagsNoncanonical(name))
    + When(v[4] != DEFLATED, CompressionNoncanonical(name))
    + When(v[5] != 0 || v[6] != 33, TimestampNoncanonical(name))
    + When(v[13] != 0, DiskStart(name))
    + When(
        v[9] != Saturated(sizes64, uncompressed) || v[8] != Saturated(sizes64, compressed) ||
        v[16] != Saturated(offset64, offset) || v[13] != 0,
        CentralZip64Layout(name))
    + (if extraError.Some? then [UnapprovedExtra(name, extraError.value)] else [])
    + (if info.Some? then MemberProblems(v, name, info.value) else [])
  }

  function MemberProblems(v: seq<nat>, name: Text, info: ZipInfo): Errors
    requires |v| == 17
  {
    When(name != info.filename, OrderMismatch(name))
    + When(
        v[3] != info.flagBits || v[4] != info.compressType ||
        v[1] != info.createSystem as int * 256 + info.createVersion || v[2] != info.extractVersion ||
        v[7] != info.crc || v[14] != info.internalAttr || v[15] != info.externalAttr,
        CentralMetadataMismatch(name))
    + When(
        info.createSystem != 3 || info.dateTime != [1980, 1, 1, 0, 0, 0] || info.volume != 0 ||
        info.internalAttr != 0 || info.externalAttr % 0x1_0000 != 0,
        MetadataNoncanonical(name))
  }

  /** The loop variables of the central pass; `zip64` is `central_zip64_by_offset`. */
  datatype CentralState = CentralState(cursor: nat, index: nat, zip64: map<nat, bool>)

  /** What some iterations reported and where they left the loop; `broke` after a `break`. */
  datatype CentralRun = CentralRun(errors: Errors, state: CentralState, broke: bool)

  function CentralStep(file: bytes, infos: seq<ZipInfo>, s: CentralState): (run: CentralRun)
    ensures run.broke ==> run.errors != [] && run.state == s
    ensures !run.broke ==> run.state.cursor > s.cursor
  {
    HeaderWidths();
    var header := ReadExactAt(file, s.cursor, 46);
    if header.None? then CentralRun([CentralRecordTruncated], s, true)
    else if Le(header.value[..4]) != CENTRAL_SIGNATURE then CentralRun([CentralGap], s, true)
    else
      var v := Unpack(CENTRAL_HEADER, header.value);
      var variableSize := v[10] + v[11] + v[12];
      var variable := ReadExactAt(file, s.cursor + 46, variableSize);
      if variable.None? then CentralRun([CentralRecordTruncated], s, true)
      else
        var info := if s.index < |infos| then Some(infos[s.index]) else None;
        CentralRun(
          CentralProblems(v, variable.value, info),
          CentralState(s.cursor + 46 + variableSize, s.index + 1, NoteZip64(s.zip64, v, info)),
          false)
  }

  function NoteZip64(zip64: map<nat, bool>, v: seq<nat>, info: Option<ZipInfo>): map<nat, bool>
    requires |v| == 17
  {
    match info
    case Some(i) => zip64[i.headerOffset := CentralUsesZip64(i)]
    case None => zip64[v[16] := SizesNeedZip64(v[9], v[8]) || CentralZip64Required(v[16])]
  }

  predicate CentralUsesZip64(info: ZipInfo) {
    SizesNeedZip64(info.fileSize, info.compressSize) || CentralZip64Required(info.headerOffset)
  }

  function CentralWalk(file: bytes, limit: nat, infos: seq<ZipInfo>, s: CentralState): CentralRun
    decreases limit - s.cursor
  {
    if s.cursor >= limit then CentralRun([], s, false)
    else
      var first := CentralStep(file, infos, s);
      if first.broke then first
      else
        var rest := CentralWalk(file, limit, infos, first.state);
        rest.(errors := first.errors + rest.errors)
  }

  /** Diagnostics of one local record `v` against its member. */
  function LocalProblems(v: seq<nat>, variable: bytes, info: ZipInfo, central64: bool): Errors
    requires |v| == 11 && |variable| == v[9] + v[10]
  {
    var decoded := DecodeFilename(variable[..v[9]], v[2]);
    var name := if decoded.Some? then decoded.value else INVALID_NAME;
    var uses64 := v[7] == UINT32_MAX || v[8] == UINT32_MAX;
    var local64 := LocalZip64Required(info.fileSize, info.compressSize);
    var memberVersion := if local64 || central64 then 45 else 20;
    var extraError := ExtraErrorOf(variable[v[9]..],
      RequiredValues(v[8], v[7], info.fileSize, info.compressSize, None, None, None));
    When(decoded.None?, NameDecodeFailed)
    + When(name != info.filename, LocalNameMismatch(info.filename))
    + When(v[2] != info.flagBits || v[3] != info.compressType || v[6] != info.crc,
        LocalMetadataMismatch(info.filename))
    + When(v[1] != (if local64 then 45 else 20) || v[4] != 0 || v[5] != 33,
        LocalMetadataNoncanonical(info.filename))
    + (if uses64 != local64 then [LocalZip64Layout(info.filename)]
       else if local64 then
         When(v[7] != UINT32_MAX || v[8] != UINT32_MAX, LocalZip64Layout(info.filename))
       else
         When(v[7] != info.compressSize || v[8] != info.fileSize, LocalSizeMismatch(info.filename)))
    + When(info.createVersion != memberVersion || info.extractVersion != memberVersion,
        MetadataNoncanonical(info.filename))
    + When(v[2] / 8 % 2 == 1, DataDescriptor(info.filename))
    + (if extraError.Some? then [UnapprovedExtra(info.filename, extraError.value)] else [])
  }

  /** What some local records reported, and `expected_local_offset` behind them. */
  datatype LocalRun = LocalRun(errors: Errors, expected: nat)

  function LocalStep(file: bytes, zip64: map<nat, bool>, info: ZipInfo, expected: nat): LocalRun {
    HeaderWidths();
    var offset := info.headerOffset;
    var gap := When(offset != expected, LocalMemberGap(info.filename));
    var header := ReadExactAt(file, offset, 30);
    if header.None? || Le(header.value[..4]) != LOCAL_SIGNATURE then
      LocalRun(gap + [LocalHeaderInvalid(info.filename)], expected)
    else
      var v := Unpack(LOCAL_HEADER, header.value);
      var variable := ReadExactAt(file, offset + 30, v[9] + v[10]);
      if variable.None? then LocalRun(gap + [LocalHeaderTruncated(info.filename)], expected)
      else
        LocalRun(
          gap + LocalProblems(v, variable.value, info, offset in zip64 && zip64[offset]),
          offset + 30 + v[9] + v[10] + info.compressSize)
  }

  function LocalWalk(file: bytes, zip64: map<nat, bool>, ordered: seq<ZipInfo>, expected: nat): LocalRun {
    if ordered == [] then LocalRun([], expected)
    else
      var first := LocalStep(file, zip64, ordered[0], expected);
      var rest := LocalWalk(file, zip64, ordered[1..], first.expected);
      rest.(errors := first.errors + rest.errors)
  }

  /** `sorted(infos, key=lambda item: item.header_offset)`. */
  function SortByOffset(infos: seq<ZipInfo>): (sorted: seq<ZipInfo>)
    ensures |sorted| == |infos|
  {
    SortBy(infos, (i: ZipInfo) => i.headerOffset)
  }

  const NO_RECORDS: map<nat, bool> := map[]

  /** Every diagnostic the envelope check reports, in order. */
  function EnvelopeErrors(file: bytes, infos: seq<ZipInfo>): Errors {
    match EndProblems(file)
    case Stopped(errors) => errors
    case Located(errors, g) =>
      var end := g.offset + g.size;
      var central := CentralWalk(file, Min(end, |file|), infos, CentralState(g.offset, 0, NO_RECORDS));
      var local := LocalWalk(file, central.state.zip64, SortByOffset(infos), 0);
      errors + When(g.declared != |infos|, EntryCountMismatch)
      + central.errors + When(central.state.cursor != end, CentralNotContiguous)
      + local.errors + When(local.expected != g.offset, LocalRegionNotContiguous)
  }

  method CentralPass(
    file: bytes, infos: seq<ZipInfo>, limit: nat, start: nat, errors: Collector<EnvelopeError>)
    returns (cursor: nat, zip64: map<nat, bool>)
    requires errors.Valid()
    modifies errors
    ensures errors.Valid()
    ensures var run := CentralWalk(file, limit, infos, CentralState(start, 0, NO_RECORDS));
      cursor == run.state.cursor && zip64 == run.state.zip64 &&
      Grew(old(errors.history), errors.history, run.errors)
  {
    hide CentralStep, Grew;
    GrewNot(errors.history);
    var index := 0;
    cursor, zip64 := start, NO_RECORDS;
    ghost var seen: Errors := [];
    ghost var whole := CentralWalk(file, limit, infos, CentralState(start, 0, NO_RECORDS));
    while cursor < limit
      invariant errors.Valid()
      invariant Grew(old(errors.history), errors.history, seen)
      invariant
        var rest := CentralWalk(file, limit, infos, CentralState(cursor, index, zip64));
        whole.errors == seen + rest.errors && whole.state == rest.state
      decreases limit - cursor
    {
      var step := CentralStep(file, infos, CentralState(cursor, index, zip64));
      Report(errors, step.errors, old(errors.history), seen);
      seen := seen + step.errors;
      if step.broke {
        assert whole.errors == seen;
        return;
      }
      cursor, index, zip64 := step.state.cursor, step.state.index, step.state.zip64;
    }
    assert whole.errors == seen;
  }

  /** After `i` records, `seen` and `expected` are what the whole walk has reported and reached. */
  ghost predicate LocalSoFar(
    file: bytes, zip64: map<nat, bool>, ordered: seq<ZipInfo>, i: nat, seen: Errors, expected: nat)
  {
    && i <= |ordered|
    && var whole, rest := LocalWalk(file, zip64, ordered, 0), LocalWalk(file, zip64, ordered[i..], expected);
    && whole.errors == seen + rest.errors && whole.expected == rest.expected
  }

  lemma LocalSoFarStarts(file: bytes, zip64: map<nat, bool>, ordered: seq<ZipInfo>)
    ensures LocalSoFar(file, zip64, ordered, 0, [], 0)
  {
    hide LocalWalk;
    assert ordered[0..] == ordered;
  }

  lemma LocalSoFarNext(
    file: bytes, zip64: map<nat, bool>, ordered: seq<ZipInfo>, i: nat, seen: Errors, expected: nat)
    requires LocalSoFar(file, zip64, ordered, i, seen, expected) && i < |ordered|
    ensures var step := LocalStep(file, zip64, ordered[i], expected);
      LocalSoFar(file, zip64, ordered, i + 1, seen + step.errors, step.expected)
  {
    hide LocalStep;
    assert ordered[i..][1..] == ordered[i + 1..];
    var step := LocalStep(file, zip64, ordered[i], expected);
    var rest := LocalWalk(file, zip64, ordered[i + 1..], step.expected);
    assert seen + (step.errors + rest.errors) == seen + step.errors + rest.errors;
  }

  lemma LocalSoFarEnds(file: bytes, zip64: map<nat, bool>, ordered: seq<ZipInfo>, seen: Errors, expected: nat)
    requires LocalSoFar(file, zip64, ordered, |ordered|, seen, expected)
    ensures LocalWalk(file, zip64, ordered, 0) == LocalRun(seen, expected)
  {
    hide LocalStep;
  }

  method LocalPass(
    file: bytes, zip64: map<nat, bool>, ordered: seq<ZipInfo>, errors: Collector<EnvelopeError>)
    returns (expectedLocalOffset: nat)
    requires errors.Valid()
    modifies errors
    ensures errors.Valid()
    ensures var run := LocalWalk(file, zip64, ordered, 0);
      expectedLocalOffset == run.expected && Grew(old(errors.history), errors.history, run.errors)
  {
    hide LocalStep, LocalWalk, LocalSoFar, Grew;
    GrewNot(errors.history);
    LocalSoFarStarts(file, zip64, ordered);
    expectedLocalOffset := 0;
    ghost var seen: Errors := [];
    for i := 0 to |ordered|
      invariant errors.Valid()
      invariant Grew(old(errors.history), errors.history, seen)
      invariant LocalSoFar(file, zip64, ordered, i, seen, expectedLocalOffset)
    {
      LocalSoFarNext(file, zip64, ordered, i, seen, expectedLocalOffset);
      var step := LocalStep(file, zip64, ordered[i], expectedLocalOffset);
      Report(errors, step.errors, old(errors.history), seen);
      seen := seen + step.errors;
      expectedLocalOffset := step.expected;
    }
    LocalSoFarEnds(file, zip64, ordered, seen, expectedLocalOffset);
  }

  lemma EnvelopeErrorsAre(file: bytes, infos: seq<ZipInfo>)
    ensures var end := EndProblems(file);
      && (end.Stopped? ==> EnvelopeErrors(file, infos) == end.errors)
      && (end.Located? ==>
        var centralEnd := end.g.offset + end.g.size;
        var central := CentralWalk(
          file, Min(centralEnd, |file|), infos, CentralState(end.g.offset, 0, NO_RECORDS));
        var local := LocalWalk(file, central.state.zip64, SortByOffset(infos), 0);
        EnvelopeErrors(file, infos) ==
          end.errors + When(end.g.declared != |infos|, EntryCountMismatch)
          + central.errors + When(central.state.cursor != centralEnd, CentralNotContiguous)
          + local.errors + When(local.expected != end.g.offset, LocalRegionNotContiguous))
  {
    hide CentralWalk, LocalWalk, EndProblems, SortByOffset, When;
  }

  method ZipEnvelopeErrors(file: bytes, infos: seq<ZipInfo>, errors: Collector<EnvelopeError>)
    requires errors.Valid()
    modifies errors
    ensures errors.Valid()
    ensures Grew(old(errors.history), errors.history, EnvelopeErrors(file, infos))
  {
    EnvelopeErrorsAre(file, infos);
    hide CentralWalk, LocalWalk, EndProblems, SortByOffset, Grew, When, EnvelopeErrors;
    ghost var before := errors.history;
    GrewNot(before);
    var end := EndProblems(file);
    Report(errors, end.errors, before, []);
    assert [] + end.errors == end.errors;
    if end.Stopped? {
      return;
    }
    var g := end.g;
    var count := When(g.declared != |infos|, EntryCountMismatch);
    Report(errors, count, before, end.errors);
    ghost var h := errors.history;
    var centralEnd := g.offset + g.size;
    var cursor, zip64 := CentralPass(file, infos, Min(centralEnd, |file|), g.offset, errors);
    ghost var central := CentralWalk(file, Min(centralEnd, |file|), infos, CentralState(g.offset, 0, NO_RECORDS));
    ghost var seen := end.errors + count;
    GrewTwice(before, h, errors.history, seen, central.errors);
    seen := seen + central.errors;
    var contiguous := When(cursor != centralEnd, CentralNotContiguous);
    Report(errors, contiguous, before, seen);
    h, seen := errors.history, seen + contiguous;
    var expectedLocalOffset := LocalPass(file, zip64, SortByOffset(infos), errors);
    ghost var local := LocalWalk(file, zip64, SortByOffset(infos), 0);
    GrewTwice(before, h, errors.history, seen, local.errors);
    seen := seen + local.errors;
    var bound := When(expectedLocalOffset != g.offset, LocalRegionNotContiguous);
    Report(errors, bound, before, seen);
  }
}

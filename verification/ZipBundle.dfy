/**
 The main results on bundles: preflight and envelope check together accept exactly the files
 that are, byte for byte, the packer's layout of their members.
 */
module ZipBundle {
  import opened Struct
  import opened Utf8
  import opened ZipFormat
  import opened ZipExtra
  import opened ZipPreflight
  import opened ZipEndLemmas
  import opened ZipEnvelope
  import opened ZipCanonical
  import opened BoundedErrors
  import opened StableSort

  ghost predicate At(file: bytes, offset: nat, part: bytes) {
    offset + |part| <= |file| && file[offset..offset + |part|] == part
  }

  function CentralBytes(infos: seq<ZipInfo>): bytes {
    if infos == [] then [] else CentralRecord(infos[0]) + CentralBytes(infos[1..])
  }

  /** Local records and member data fill `start..end`, each record at its member's offset. */
  ghost predicate LocalRegion(file: bytes, ordered: seq<ZipInfo>, start: nat, end: nat) {
    if ordered == [] then start == end
    else
      var info := ordered[0];
      && info.headerOffset == start
      && At(file, start, LocalRecord(info))
      && LocalRegion(file, ordered[1..], start + |LocalRecord(info)| + info.compressSize, end)
  }

  ghost predicate CentralFits(info: ZipInfo) {
    Fits(CENTRAL_HEADER, CentralValues(info)) && Representable(CentralRequired(info))
  }

  ghost predicate LocalFits(info: ZipInfo) {
    Fits(LOCAL_HEADER, LocalValues(info)) && Representable(LocalRequired(info))
  }

  ghost predicate CanonicalCentral(info: ZipInfo) {
    CanonicalMetadata(info) && CentralFits(info)
  }

  ghost predicate CanonicalLocal(info: ZipInfo) {
    CanonicalVersions(info) && LocalFits(info)
  }

  /** Everything the packer does, apart from where the end-record scan may be led. */
  ghost predicate IsPackerLayout(file: bytes, infos: seq<ZipInfo>, g: Geometry) {
    && (forall info :: info in infos ==> CanonicalCentral(info) && CanonicalLocal(info))
    && g.size == |CentralBytes(infos)|
    && g.declared == |infos|
    && LocalRegion(file, SortByOffset(infos), 0, g.offset)
    && At(file, g.offset, CentralBytes(infos))
  }

  ghost predicate IsCanonicalBundle(file: bytes, infos: seq<ZipInfo>, g: Geometry) {
    IsPackerLayout(file, infos, g) && HasCanonicalEnd(file, g)
  }

  ghost predicate Accepted(file: bytes, infos: seq<ZipInfo>, maxEntries: Option<nat>, maxCentralBytes: Option<nat>) {
    && PreflightOf(file, maxEntries, maxCentralBytes).Ok?
    && PreflightOf(file, maxEntries, maxCentralBytes).value.observedEntryCount == |infos|
    && EnvelopeErrors(file, infos) == []
  }

  ghost predicate WithinLimit(value: nat, limit: Option<nat>) {
    limit.None? || value <= limit.value
  }

  // ----- end records -----

  lemma Zip64EndIsSilent(file: bytes, eocd: nat, v: seq<nat>, g: Geometry)
    requires |v| == 8 && HasLocator(file, eocd) && DecodeZip64End(file, eocd, v) == Ok(g)
    ensures Zip64Problems(file, eocd, v, []) == Located([], g)
  {
    hide Unpack, Width;
  }

  /** Preflight acceptance already implies that the envelope's end-record checks report nothing. */
  lemma PreflightImpliesEndChecks(file: bytes, g: Geometry)
    requires ReadEnd(file) == Ok(g)
    ensures EndProblems(file) == Located([], g)
    ensures g.offset + g.size <= |file|
  {
    hide EndFields, EndOffset, DecodeZip64End, Zip64Problems, LastCandidate;
    var tail := file[TailStart(file)..];
    var relative := EndOffset(tail);
    var v, eocd := EndFields(tail, relative), TailStart(file) + relative;
    if HasLocator(file, eocd) {
      Zip64EndIsSilent(file, eocd, v, g);
      AcceptedEnd(file);
    } else {
      EndCountIsShort(tail, relative);
    }
  }

  lemma EndCountIsShort(data: bytes, offset: nat)
    requires offset + 22 <= |data|
    ensures EndFields(data, offset)[4] <= FILE_COUNT_LIMIT
  {
    HeaderWidths();
    PackUnpack(END_RECORD, data[offset..offset + 22]);
    Pow256Values();
    assert EndFields(data, offset)[4] < Pow256(END_RECORD[4]) && END_RECORD[4] == 2;
  }

  // ----- one record -----

  lemma CentralHeaderParts(front: bytes, lengths: bytes, back: bytes)
    requires |front| == 28 && |lengths| == 6 && |back| == 12
    ensures Width(CENTRAL_HEADER) == 46 && Width(H(3)) == 6
    ensures Unpack(CENTRAL_HEADER, front + lengths + back)[10..13] == Unpack(H(3), lengths)
  {
    hide Unpack, Width, Run;
    HeaderWidths();
    RunWidths();
    var f, m, t := I(1) + H(6) + I(3), H(3), H(2) + I(2);
    assert f + m + t == CENTRAL_HEADER;
    WidthAppend(I(1), H(6));
    WidthAppend(I(1) + H(6), I(3));
    WidthAppend(H(2), I(2));
    UnpackAppend(f, m, front, lengths);
    UnpackAppend(f + m, t, front + lengths, back);
  }

  lemma CentralLengths(header: bytes)
    requires |header| == 46
    ensures Width(CENTRAL_HEADER) == 46
    ensures var v := Unpack(CENTRAL_HEADER, header);
      v[0] == Le(header[..4]) &&
      v[10] == Le(header[28..30]) && v[11] == Le(header[30..32]) && v[12] == Le(header[32..34])
  {
    hide Width, Le;
    HeaderWidths();
    FirstField(CENTRAL_HEADER, header);
    hide Unpack;
    var front, lengths, back := header[..28], header[28..34], header[34..];
    assert front + lengths + back == header;
    CentralHeaderParts(front, lengths, back);
    ThreeShorts(lengths);
    assert lengths[..2] == header[28..30] && lengths[2..4] == header[30..32] && lengths[4..] == header[32..34];
    var v := Unpack(CENTRAL_HEADER, header);
    assert v[10] == v[10..13][0] && v[11] == v[10..13][1] && v[12] == v[10..13][2];
  }

  lemma ThreeShorts(b: bytes)
    requires |b| == 6
    ensures Width(H(3)) == 6
    ensures Unpack(H(3), b) == [Le(b[..2]), Le(b[2..4]), Le(b[4..])]
  {
    RunWidths();
    assert H(3)[1..] == H(2) && H(2)[1..] == H(1) && H(1)[1..] == [];
    assert Unpack(H(3), b) == [Le(b[..2])] + Unpack(H(2), b[2..]);
    assert Unpack(H(2), b[2..]) == [Le(b[2..][..2])] + Unpack(H(1), b[2..][2..]);
    assert b[2..][..2] == b[2..4] && b[2..][2..] == b[4..] && b[4..][..2] == b[4..];
    assert Unpack(H(1), b[4..]) == [Le(b[4..])] + Unpack([], b[6..]);
  }

  lemma AtCons(file: bytes, offset: nat, head: bytes, tail: bytes)
    ensures At(file, offset, head + tail) <==> At(file, offset, head) && At(file, offset + |head|, tail)
  {
    if offset + |head| + |tail| <= |file| {
      var both := file[offset..offset + |head| + |tail|];
      assert both[..|head|] == file[offset..offset + |head|];
      assert both[|head|..] == file[offset + |head|..offset + |head| + |tail|];
      assert both == both[..|head|] + both[|head|..];
      assert (head + tail)[..|head|] == head && (head + tail)[|head|..] == tail;
    }
  }

  lemma HeaderAt(file: bytes, offset: nat, f: Format, v: seq<nat>)
    requires |v| == |f|
    ensures At(file, offset, Pack(f, v)) && Fits(f, v) <==>
      offset + Width(f) <= |file| && Unpack(f, file[offset..offset + Width(f)]) == v
  {
    hide Pack, Unpack, Width, Fits;
    if offset + Width(f) <= |file| {
      PackUnpack(f, file[offset..offset + Width(f)]);
      if Fits(f, v) {
        UnpackPack(f, v);
      }
    }
  }

  /** The bytes of a record are known once its header values and its variable part are. */
  lemma RecordAt(file: bytes, offset: nat, f: Format, v: seq<nat>, tail: bytes)
    requires |v| == |f|
    ensures At(file, offset, Pack(f, v) + tail) && Fits(f, v) <==>
      && offset + Width(f) <= |file| && At(file, offset + Width(f), tail)
      && Unpack(f, file[offset..offset + Width(f)]) == v
  {
    hide Pack, Unpack, Width, Fits, At;
    AtCons(file, offset, Pack(f, v), tail);
    HeaderAt(file, offset, f, v);
  }

  /** The header values at an offset, once the signature there is known to be right. */
  ghost predicate HeaderRead(file: bytes, offset: nat, f: Format, signature: nat, v: seq<nat>) {
    && offset + Width(f) <= |file|
    && Unpack(f, file[offset..offset + Width(f)]) == v
    && v != [] && v[0] == signature
  }

  /** What a turn does with a header of values `v`. */
  ghost predicate StepsOn(file: bytes, infos: seq<ZipInfo>, s: CentralState, v: seq<nat>)
    requires s.index < |infos| && |v| == 17
  {
    var run, info, end := CentralStep(file, infos, s), infos[s.index], s.cursor + 46 + v[10] + v[11] + v[12];
    && (run.errors == [] <==>
      end <= |file| && CentralProblems(v, file[s.cursor + 46..end], Some(info)) == [])
    && (run.errors == [] ==>
      !run.broke && run.state == CentralState(
        end, s.index + 1, s.zip64[info.headerOffset := CentralUsesZip64(info)]))
  }

  lemma CentralStepUnfold(file: bytes, infos: seq<ZipInfo>, s: CentralState, v: seq<nat>)
    requires s.index < |infos| && HeaderRead(file, s.cursor, CENTRAL_HEADER, CENTRAL_SIGNATURE, v)
    ensures |v| == 17 && Width(CENTRAL_HEADER) == 46 && StepsOn(file, infos, s, v)
  {
    hide CentralProblems, Unpack, Width, CentralUsesZip64;
    HeaderWidths();
    CentralLengths(file[s.cursor..s.cursor + 46]);
  }

  lemma CentralStepUnread(file: bytes, infos: seq<ZipInfo>, s: CentralState)
    requires s.index < |infos| && CentralStep(file, infos, s).errors == []
    ensures Width(CENTRAL_HEADER) == 46 && s.cursor + 46 <= |file|
    ensures HeaderRead(file, s.cursor, CENTRAL_HEADER, CENTRAL_SIGNATURE,
      Unpack(CENTRAL_HEADER, file[s.cursor..s.cursor + 46]))
  {
    hide CentralProblems, Unpack, Width, CentralUsesZip64;
    HeaderWidths();
    if s.cursor + 46 <= |file| {
      CentralLengths(file[s.cursor..s.cursor + 46]);
    }
  }

  lemma CentralStepExact(file: bytes, infos: seq<ZipInfo>, s: CentralState)
    requires s.index < |infos|
    ensures var run, info := CentralStep(file, infos, s), infos[s.index];
      && (run.errors == [] <==> CanonicalCentral(info) && At(file, s.cursor, CentralRecord(info)))
      && (run.errors == [] ==>
        !run.broke && run.state == CentralState(
          s.cursor + |CentralRecord(info)|, s.index + 1, s.zip64[info.headerOffset := CentralUsesZip64(info)]))
  {
    hide CentralStep, CentralProblems, Pack, Unpack, Width, Fits, CanonicalMetadata, CentralTail, Representable,
      CentralUsesZip64, CentralValues;
    HeaderWidths();
    var info, run := infos[s.index], CentralStep(file, infos, s);
    CentralShape(info);
    RecordAt(file, s.cursor, CENTRAL_HEADER, CentralValues(info), CentralTail(info));
    if run.errors == [] {
      CentralStepUnread(file, infos, s);
      var v := Unpack(CENTRAL_HEADER, file[s.cursor..s.cursor + 46]);
      CentralStepUnfold(file, infos, s, v);
      CentralProblemsExact(v, file[s.cursor + 46..s.cursor + 46 + v[10] + v[11] + v[12]], info);
    }
    if CanonicalCentral(info) && At(file, s.cursor, CentralRecord(info)) {
      CentralStepUnfold(file, infos, s, CentralValues(info));
      CentralProblemsExact(CentralValues(info), CentralTail(info), info);
    }
  }

  lemma CentralShape(info: ZipInfo)
    ensures |CentralValues(info)| == 17
    ensures |CentralTail(info)| == CentralValues(info)[10] + CentralValues(info)[11] + CentralValues(info)[12]
    ensures |CentralValues(info)| == |CENTRAL_HEADER| && CentralValues(info)[0] == CENTRAL_SIGNATURE
    ensures |CentralRecord(info)| == 46 + |CentralTail(info)|
  {
    HeaderWidths();
  }

  lemma LocalShape(info: ZipInfo)
    ensures |LocalValues(info)| == 11
    ensures |LocalTail(info)| == LocalValues(info)[9] + LocalValues(info)[10]
    ensures |LocalValues(info)| == |LOCAL_HEADER| && LocalValues(info)[0] == LOCAL_SIGNATURE
    ensures |LocalRecord(info)| == 30 + |LocalTail(info)|
  {
    HeaderWidths();
  }

  lemma LocalStepUnfold(file: bytes, zip64: map<nat, bool>, info: ZipInfo, expected: nat, v: seq<nat>)
    requires HeaderRead(file, info.headerOffset, LOCAL_HEADER, LOCAL_SIGNATURE, v)
    requires info.headerOffset in zip64
    ensures |v| == 11 && Width(LOCAL_HEADER) == 30
    ensures var run, offset := LocalStep(file, zip64, info, expected), info.headerOffset;
      var end := offset + 30 + v[9] + v[10];
      && (run.errors == [] <==>
        offset == expected && end <= |file| && LocalProblems(v, file[offset + 30..end], info, zip64[offset]) == [])
      && (run.errors == [] ==> run.expected == end + info.compressSize)
  {
    hide LocalProblems, Unpack, Width, When;
    HeaderWidths();
    EmptyConcatenation();
    FirstField(LOCAL_HEADER, file[info.headerOffset..info.headerOffset + 30]);
  }

  lemma LocalStepUnread(file: bytes, zip64: map<nat, bool>, info: ZipInfo, expected: nat)
    requires LocalStep(file, zip64, info, expected).errors == []
    ensures Width(LOCAL_HEADER) == 30 && info.headerOffset + 30 <= |file|
    ensures HeaderRead(file, info.headerOffset, LOCAL_HEADER, LOCAL_SIGNATURE,
      Unpack(LOCAL_HEADER, file[info.headerOffset..info.headerOffset + 30]))
  {
    hide LocalProblems, Unpack, Width, When;
    HeaderWidths();
    if info.headerOffset + 30 <= |file| {
      FirstField(LOCAL_HEADER, file[info.headerOffset..info.headerOffset + 30]);
    }
  }

  lemma LocalStepExact(file: bytes, zip64: map<nat, bool>, info: ZipInfo, expected: nat)
    requires CanonicalMetadata(info)
    requires info.headerOffset in zip64 && zip64[info.headerOffset] == CentralUsesZip64(info)
    ensures var run := LocalStep(file, zip64, info, expected);
      && (run.errors == [] <==>
        info.headerOffset == expected && CanonicalLocal(info) && At(file, expected, LocalRecord(info)))
      && (run.errors == [] ==> run.expected == expected + |LocalRecord(info)| + info.compressSize)
  {
    hide LocalStep, LocalProblems, Pack, Unpack, Width, Fits, CanonicalMetadata, LocalTail, Representable,
      CentralUsesZip64, LocalValues, CanonicalVersions;
    HeaderWidths();
    LocalShape(info);
    var offset, run := info.headerOffset, LocalStep(file, zip64, info, expected);
    RecordAt(file, offset, LOCAL_HEADER, LocalValues(info), LocalTail(info));
    if run.errors == [] {
      LocalStepUnread(file, zip64, info, expected);
      var v := Unpack(LOCAL_HEADER, file[offset..offset + 30]);
      LocalStepUnfold(file, zip64, info, expected, v);
      LocalProblemsExact(v, file[offset + 30..offset + 30 + v[9] + v[10]], info);
    }
    if offset == expected && CanonicalLocal(info) && At(file, expected, LocalRecord(info)) {
      LocalStepUnfold(file, zip64, info, expected, LocalValues(info));
      LocalProblemsExact(LocalValues(info), LocalTail(info), info);
    }
  }

  // ----- the central walk -----

  lemma {:induction false} CountGrows(file: bytes, cursor: nat, end: nat, observed: nat, maxEntries: Option<nat>)
    ensures var r := CountCentral(file, cursor, end, observed, maxEntries);
      r.Ok? ==>
        && r.value >= observed
        && (cursor < end ==> r.value > observed)
        && (WithinLimit(observed, maxEntries) ==> WithinLimit(r.value, maxEntries))
    decreases end - cursor
  {
    hide Le;
    if cursor < end {
      var header := ReadExactAt(file, cursor, 46);
      if header.Some? && cursor + CentralRecordSize(header.value) <= end {
        CountGrows(file, cursor + CentralRecordSize(header.value), end, observed + 1, maxEntries);
      }
    }
  }

  function NoteAll(zip64: map<nat, bool>, infos: seq<ZipInfo>): map<nat, bool>
    decreases |infos|
  {
    if infos == [] then zip64
    else NoteAll(zip64[infos[0].headerOffset := CentralUsesZip64(infos[0])], infos[1..])
  }

  ghost predicate AllCentral(infos: seq<ZipInfo>) {
    forall info :: info in infos ==> CanonicalCentral(info)
  }

  lemma AllCentralCons(infos: seq<ZipInfo>)
    requires infos != []
    ensures AllCentral(infos) <==> CanonicalCentral(infos[0]) && AllCentral(infos[1..])
  {
    assert forall x :: x in infos <==> x == infos[0] || x in infos[1..];
  }

  /** How one counted record looks to the counting loop. */
  lemma CountStep(file: bytes, cursor: nat, end: nat, observed: nat, maxEntries: Option<nat>, info: ZipInfo)
    requires cursor < end <= |file| && CanonicalCentral(info) && At(file, cursor, CentralRecord(info))
    requires WithinLimit(observed + 1, maxEntries)
    ensures CountCentral(file, cursor, end, observed, maxEntries) ==
      if cursor + |CentralRecord(info)| > end then Err(Invalid(CentralRecordBounds))
      else CountCentral(file, cursor + |CentralRecord(info)|, end, observed + 1, maxEntries)
  {
    hide Pack, Unpack, Width, CanonicalMetadata, CentralTail, Representable, Encode, CentralExtra, CentralValues,
      CountCentral, Le;
    HeaderWidths();
    CentralShape(info);
    RecordAt(file, cursor, CENTRAL_HEADER, CentralValues(info), CentralTail(info));
    CentralLengths(file[cursor..cursor + 46]);
    CountUnfold(file, cursor, end, observed, maxEntries);
  }

  lemma CountUnfold(file: bytes, cursor: nat, end: nat, observed: nat, maxEntries: Option<nat>)
    requires cursor < end && cursor + 46 <= |file|
    ensures CountCentral(file, cursor, end, observed, maxEntries) ==
      var header := file[cursor..cursor + 46];
      if maxEntries.Some? && observed >= maxEntries.value then Err(LimitExceeded(EntryCountTooLarge))
      else if Le(header[..4]) != CENTRAL_SIGNATURE then Err(Invalid(CentralRecordGap))
      else if cursor + CentralRecordSize(header) > end then Err(Invalid(CentralRecordBounds))
      else CountCentral(file, cursor + CentralRecordSize(header), end, observed + 1, maxEntries)
  {
    hide CentralRecordSize, Le;
  }

  lemma CentralWalkStep(file: bytes, limit: nat, infos: seq<ZipInfo>, s: CentralState)
    requires s.cursor < limit
    ensures var step, run := CentralStep(file, infos, s), CentralWalk(file, limit, infos, s);
      run.errors == [] ==> step.errors == [] && !step.broke
    ensures var step := CentralStep(file, infos, s);
      step.errors == [] ==> CentralWalk(file, limit, infos, s) == CentralWalk(file, limit, infos, step.state)
  {
    hide CentralStep;
  }

  /** Both passes over the central directory end well, having seen exactly the parsed members. */
  ghost predicate CentralSilent(
    file: bytes, end: nat, infos: seq<ZipInfo>, s: CentralState, maxEntries: Option<nat>)
  {
    var run := CentralWalk(file, end, infos, s);
    && CountCentral(file, s.cursor, end, s.index, maxEntries) == Ok(|infos|)
    && run.errors == [] && run.state.cursor == end
  }

  lemma {:induction false} CentralWalkExact(
    file: bytes, end: nat, infos: seq<ZipInfo>, s: CentralState, maxEntries: Option<nat>)
    requires s.cursor <= end <= |file| && s.index <= |infos| && WithinLimit(|infos|, maxEntries)
    ensures var rest := infos[s.index..];
      CentralSilent(file, end, infos, s, maxEntries) <==>
        && AllCentral(rest) && At(file, s.cursor, CentralBytes(rest))
        && s.cursor + |CentralBytes(rest)| == end
    ensures CentralSilent(file, end, infos, s, maxEntries) ==>
      CentralWalk(file, end, infos, s).state.zip64 == NoteAll(s.zip64, infos[s.index..])
    decreases |infos| - s.index
  {
    hide CentralStep, CountCentral, CentralRecord, CanonicalCentral, AllCentral, CentralWalk, At, CentralBytes, NoteAll;
    var rest := infos[s.index..];
    CountGrows(file, s.cursor, end, s.index, maxEntries);
    CountNothing(file, end, s.index, maxEntries);
    CentralWalkDone(file, end, infos, s);
    CentralRestUnfold(file, rest, s.zip64, s.cursor);
    if s.index == |infos| {
    } else {
      var info, step := infos[s.index], CentralStep(file, infos, s);
      assert rest[0] == info && rest[1..] == infos[s.index + 1..];
      CentralRecordLength(info);
      AllCentralCons(rest);
      AtCons(file, s.cursor, CentralRecord(info), CentralBytes(rest[1..]));
      CentralStepExact(file, infos, s);
      if s.cursor < end {
        CentralWalkStep(file, end, infos, s);
        if step.errors == [] {
          CountStep(file, s.cursor, end, s.index, maxEntries, info);
          if step.state.cursor <= end {
            CentralWalkExact(file, end, infos, step.state, maxEntries);
          }
        }
      }
    }
  }

  lemma CentralWalkDone(file: bytes, limit: nat, infos: seq<ZipInfo>, s: CentralState)
    ensures s.cursor >= limit ==> CentralWalk(file, limit, infos, s) == CentralRun([], s, false)
  {
  }

  lemma CentralRestUnfold(file: bytes, rest: seq<ZipInfo>, zip64: map<nat, bool>, cursor: nat)
    requires cursor <= |file|
    ensures rest == [] ==>
      AllCentral(rest) && CentralBytes(rest) == [] && NoteAll(zip64, rest) == zip64 && At(file, cursor, [])
    ensures rest != [] ==>
      && CentralBytes(rest) == CentralRecord(rest[0]) + CentralBytes(rest[1..])
      && NoteAll(zip64, rest) == NoteAll(zip64[rest[0].headerOffset := CentralUsesZip64(rest[0])], rest[1..])
  {
    hide CentralRecord, CentralUsesZip64;
  }

  lemma CountNothing(file: bytes, end: nat, observed: nat, maxEntries: Option<nat>)
    ensures CountCentral(file, end, end, observed, maxEntries) == Ok(observed)
  {
  }

  lemma CentralRecordLength(info: ZipInfo)
    ensures |CentralRecord(info)| >= 46
  {
    HeaderWidths();
    CentralShape(info);
  }

  // ----- the local walk -----

  ghost predicate Noted(zip64: map<nat, bool>, infos: seq<ZipInfo>) {
    forall info :: info in infos ==>
      info.headerOffset in zip64 && zip64[info.headerOffset] == CentralUsesZip64(info)
  }

  ghost predicate AllLocal(infos: seq<ZipInfo>) {
    forall info :: info in infos ==> CanonicalLocal(info)
  }

  ghost predicate AllMetadata(infos: seq<ZipInfo>) {
    forall info :: info in infos ==> CanonicalMetadata(info)
  }

  lemma {:induction false} LocalWalkExact(
    file: bytes, zip64: map<nat, bool>, ordered: seq<ZipInfo>, start: nat, end: nat)
    requires AllMetadata(ordered) && Noted(zip64, ordered)
    ensures var run := LocalWalk(file, zip64, ordered, start);
      run.errors == [] && run.expected == end <==> AllLocal(ordered) && LocalRegion(file, ordered, start, end)
  {
    hide LocalStep, LocalRecord, CanonicalLocal, CanonicalMetadata;
    if ordered != [] {
      var info, rest := ordered[0], ordered[1..];
      assert forall x :: x in ordered <==> x == info || x in rest;
      LocalStepExact(file, zip64, info, start);
      EmptyConcatenation();
      var step := LocalStep(file, zip64, info, start);
      LocalWalkExact(file, zip64, rest, step.expected, end);
    }
  }

  ghost predicate StrictlyOrdered(ordered: seq<ZipInfo>) {
    forall i, j :: 0 <= i < j < |ordered| ==> ordered[i].headerOffset < ordered[j].headerOffset
  }

  ghost predicate AllFrom(ordered: seq<ZipInfo>, start: nat) {
    forall i :: 0 <= i < |ordered| ==> ordered[i].headerOffset >= start
  }

  lemma OrderedCons(ordered: seq<ZipInfo>, start: nat)
    requires ordered != [] && ordered[0].headerOffset == start
    requires StrictlyOrdered(ordered[1..]) && AllFrom(ordered[1..], start + 1)
    ensures StrictlyOrdered(ordered) && AllFrom(ordered, start)
  {
    var rest := ordered[1..];
    forall j | 1 <= j < |ordered| ensures ordered[j].headerOffset > start {
      assert rest[j - 1] == ordered[j];
    }
    forall i, j | 0 <= i < j < |ordered| ensures ordered[i].headerOffset < ordered[j].headerOffset {
      if i > 0 {
        assert rest[i - 1] == ordered[i] && rest[j - 1] == ordered[j];
      }
    }
  }

  lemma LocalStepAdvances(file: bytes, zip64: map<nat, bool>, info: ZipInfo, expected: nat)
    requires LocalStep(file, zip64, info, expected).errors == []
    ensures info.headerOffset == expected && LocalStep(file, zip64, info, expected).expected > expected
  {
    hide LocalProblems;
  }

  /** A silent local pass found its members at strictly increasing offsets. */
  lemma {:induction false} LocalWalkOrders(file: bytes, zip64: map<nat, bool>, ordered: seq<ZipInfo>, start: nat)
    requires LocalWalk(file, zip64, ordered, start).errors == []
    ensures StrictlyOrdered(ordered) && AllFrom(ordered, start)
  {
    hide LocalStep;
    if ordered != [] {
      var step := LocalStep(file, zip64, ordered[0], start);
      EmptyConcatenation();
      LocalStepAdvances(file, zip64, ordered[0], start);
      LocalWalkOrders(file, zip64, ordered[1..], step.expected);
      OrderedCons(ordered, start);
    }
  }

  lemma {:induction false} LocalRegionOrders(file: bytes, ordered: seq<ZipInfo>, start: nat, end: nat)
    requires LocalRegion(file, ordered, start, end)
    ensures StrictlyOrdered(ordered) && AllFrom(ordered, start)
  {
    hide LocalRecord;
    if ordered != [] {
      var info := ordered[0];
      LocalShape(info);
      LocalRegionOrders(file, ordered[1..], start + |LocalRecord(info)| + info.compressSize, end);
      OrderedCons(ordered, start);
    }
  }

  lemma SortByOffsetKeepsMembers(infos: seq<ZipInfo>)
    ensures forall x :: x in SortByOffset(infos) <==> x in infos
  {
    SortKeepsMembers(infos, (i: ZipInfo) => i.headerOffset);
  }

  /** Members at one offset agree on the central ZIP64 decision. */
  ghost predicate OffsetsAgree(infos: seq<ZipInfo>) {
    forall x, y :: x in infos && y in infos && x.headerOffset == y.headerOffset ==>
      CentralUsesZip64(x) == CentralUsesZip64(y)
  }

  lemma OrderedOffsetsAgree(infos: seq<ZipInfo>)
    requires StrictlyOrdered(SortByOffset(infos))
    ensures OffsetsAgree(infos)
  {
    hide CentralUsesZip64, SortByOffset;
    SortByOffsetKeepsMembers(infos);
    var sorted := SortByOffset(infos);
    forall x, y | x in infos && y in infos && x.headerOffset == y.headerOffset ensures x == y {
      assert x in sorted && y in sorted;
      var i :| 0 <= i < |sorted| && sorted[i] == x;
      var j :| 0 <= j < |sorted| && sorted[j] == y;
    }
  }

  lemma {:induction false} NoteAllIsNoted(zip64: map<nat, bool>, infos: seq<ZipInfo>, offset: nat)
    requires OffsetsAgree(infos)
    ensures offset in zip64 ==> offset in NoteAll(zip64, infos)
    ensures (forall x :: x in infos ==> x.headerOffset != offset) && offset in zip64 ==>
      NoteAll(zip64, infos)[offset] == zip64[offset]
    ensures forall x :: x in infos && x.headerOffset == offset ==>
      offset in NoteAll(zip64, infos) && NoteAll(zip64, infos)[offset] == CentralUsesZip64(x)
    decreases |infos|
  {
    hide CentralUsesZip64;
    if infos != [] {
      var first, rest := infos[0], infos[1..];
      assert forall x :: x in infos <==> x == first || x in rest;
      NoteAllIsNoted(zip64[first.headerOffset := CentralUsesZip64(first)], rest, offset);
    }
  }

  // ----- the theorems -----

  lemma NoteAllCovers(infos: seq<ZipInfo>, ordered: seq<ZipInfo>)
    requires OffsetsAgree(infos)
    requires forall x :: x in ordered ==> x in infos
    ensures Noted(NoteAll(NO_RECORDS, infos), ordered)
  {
    hide CentralUsesZip64, NoteAll;
    forall x | x in ordered
      ensures x.headerOffset in NoteAll(NO_RECORDS, infos)
      ensures NoteAll(NO_RECORDS, infos)[x.headerOffset] == CentralUsesZip64(x)
    {
      NoteAllIsNoted(NO_RECORDS, infos, x.headerOffset);
    }
  }

  /** What acceptance means once the end records have been read. */
  ghost predicate BodyAccepted(file: bytes, infos: seq<ZipInfo>, g: Geometry, maxEntries: Option<nat>) {
    var end, start := g.offset + g.size, CentralState(g.offset, 0, NO_RECORDS);
    && g.declared == |infos|
    && CentralSilent(file, end, infos, start, maxEntries)
    && var local := LocalWalk(file, CentralWalk(file, end, infos, start).state.zip64, SortByOffset(infos), 0);
      local.errors == [] && local.expected == g.offset
  }

  lemma BodyIsExact(file: bytes, infos: seq<ZipInfo>, g: Geometry, maxEntries: Option<nat>)
    requires g.offset + g.size <= |file| && WithinLimit(|infos|, maxEntries)
    ensures BodyAccepted(file, infos, g, maxEntries) <==> IsPackerLayout(file, infos, g)
  {
    hide CentralSilent, CentralBytes, LocalRegion, LocalWalk, CanonicalMetadata, CentralFits, CanonicalLocal,
      CentralWalk, NoteAll, Noted, SortByOffset, StrictlyOrdered, OffsetsAgree;
    var end, start := g.offset + g.size, CentralState(g.offset, 0, NO_RECORDS);
    var ordered := SortByOffset(infos);
    assert infos[0..] == infos;
    SortByOffsetKeepsMembers(infos);
    CentralWalkExact(file, end, infos, start, maxEntries);
    if CentralSilent(file, end, infos, start, maxEntries) {
      var zip64 := CentralWalk(file, end, infos, start).state.zip64;
      if LocalWalk(file, zip64, ordered, 0).errors == [] {
        LocalWalkOrders(file, zip64, ordered, 0);
        OrderedOffsetsAgree(infos);
        NoteAllCovers(infos, ordered);
        LocalWalkExact(file, zip64, ordered, 0, g.offset);
      } else if LocalRegion(file, ordered, 0, g.offset) {
        LocalRegionOrders(file, ordered, 0, g.offset);
        OrderedOffsetsAgree(infos);
        NoteAllCovers(infos, ordered);
        LocalWalkExact(file, zip64, ordered, 0, g.offset);
      }
    }
  }

  lemma AcceptedHasEnd(
    file: bytes, infos: seq<ZipInfo>, maxEntries: Option<nat>, maxCentralBytes: Option<nat>, g: Geometry)
    requires ReadEnd(file) == Ok(g)
    ensures g.offset + g.size <= |file|
    ensures Accepted(file, infos, maxEntries, maxCentralBytes) <==>
      BodyAccepted(file, infos, g, maxEntries)
      && WithinLimit(g.size, maxCentralBytes) && WithinLimit(|infos|, maxEntries)
  {
    hide ReadEnd, EndProblems, CountCentral, CentralWalk, LocalWalk, SortByOffset, When;
    PreflightImpliesEndChecks(file, g);
    EmptyConcatenation();
    CountGrows(file, g.offset, g.offset + g.size, 0, maxEntries);
  }

  /**
   No hidden bytes, and nothing canonical refused: a bundle passes preflight with the right
   count and a silent envelope check exactly when the file is the packer's layout of its
   members, within the two configured limits.
   */
  lemma BundleIsExact(file: bytes, infos: seq<ZipInfo>, maxEntries: Option<nat>, maxCentralBytes: Option<nat>)
    ensures Accepted(file, infos, maxEntries, maxCentralBytes) <==>
      WithinLimit(|infos|, maxEntries) &&
      exists g :: IsCanonicalBundle(file, infos, g) && WithinLimit(g.size, maxCentralBytes)
  {
    hide ReadEnd, EnvelopeErrors, BodyAccepted, IsPackerLayout, HasCanonicalEnd;
    if Accepted(file, infos, maxEntries, maxCentralBytes) {
      var g := ReadEnd(file).value;
      AcceptedHasEnd(file, infos, maxEntries, maxCentralBytes, g);
      BodyIsExact(file, infos, g, maxEntries);
      EndIsExact(file, g);
      assert IsCanonicalBundle(file, infos, g);
    }
    if WithinLimit(|infos|, maxEntries) {
      forall g | IsCanonicalBundle(file, infos, g) && WithinLimit(g.size, maxCentralBytes)
        ensures Accepted(file, infos, maxEntries, maxCentralBytes)
      {
        EndIsExact(file, g);
        AcceptedHasEnd(file, infos, maxEntries, maxCentralBytes, g);
        BodyIsExact(file, infos, g, maxEntries);
      }
    }
  }

  /** The local records with the data behind each, cut from the file. */
  ghost function LocalBytes(file: bytes, ordered: seq<ZipInfo>, start: nat): bytes
    decreases |ordered|
  {
    if ordered == [] then []
    else
      var data := start + |LocalRecord(ordered[0])|;
      var next := data + ordered[0].compressSize;
      LocalRecord(ordered[0])
      + (if next <= |file| then file[data..next] else [])
      + LocalBytes(file, ordered[1..], next)
  }

  lemma Cut3(file: bytes, a: nat, b: nat, c: nat, d: nat)
    requires a <= b <= c <= d <= |file|
    ensures file[a..d] == file[a..b] + file[b..c] + file[c..d]
  {
  }

  lemma {:induction false} LocalRegionBytes(file: bytes, ordered: seq<ZipInfo>, start: nat, end: nat)
    requires LocalRegion(file, ordered, start, end) && end <= |file|
    ensures start <= end && file[start..end] == LocalBytes(file, ordered, start)
    decreases |ordered|
  {
    hide LocalRecord;
    if ordered != [] {
      var record, rest := LocalRecord(ordered[0]), ordered[1..];
      var data := start + |record|;
      var next := data + ordered[0].compressSize;
      LocalRegionBytes(file, rest, next, end);
      Cut3(file, start, data, next, end);
      assert LocalBytes(file, ordered, start) == record + file[data..next] + LocalBytes(file, rest, next);
    }
  }

  /** An accepted file is the concatenation of its records and member data, and of nothing else. */
  lemma NoHiddenBytes(file: bytes, infos: seq<ZipInfo>, maxEntries: Option<nat>, maxCentralBytes: Option<nat>)
    requires Accepted(file, infos, maxEntries, maxCentralBytes)
    ensures exists g ::
      IsCanonicalBundle(file, infos, g) &&
      file == LocalBytes(file, SortByOffset(infos), 0) + CentralBytes(infos) + EndBytes(g)
  {
    hide Accepted, CentralBytes, LocalRegion, EndBytes, SortByOffset, LocalBytes;
    BundleIsExact(file, infos, maxEntries, maxCentralBytes);
    var g :| IsCanonicalBundle(file, infos, g);
    LocalRegionBytes(file, SortByOffset(infos), 0, g.offset);
    assert file == file[..g.offset] + file[g.offset..g.offset + g.size] + file[g.offset + g.size..];
    assert file[..g.offset] == file[0..g.offset];
  }

  lemma {:induction false} RegionHolds(file: bytes, ordered: seq<ZipInfo>, start: nat, end: nat, info: ZipInfo)
    requires LocalRegion(file, ordered, start, end) && info in ordered
    ensures At(file, info.headerOffset, LocalRecord(info))
    ensures info.headerOffset + |LocalRecord(info)| + info.compressSize <= end
  {
    hide LocalRecord;
    var first := ordered[0];
    var next := start + |LocalRecord(first)| + first.compressSize;
    LocalRegionEnd(file, ordered[1..], next, end);
    if info != first {
      RegionHolds(file, ordered[1..], next, end, info);
    }
  }

  lemma {:induction false} LocalRegionEnd(file: bytes, ordered: seq<ZipInfo>, start: nat, end: nat)
    requires LocalRegion(file, ordered, start, end)
    ensures start <= end
  {
    hide LocalRecord;
    if ordered != [] {
      LocalRegionEnd(file, ordered[1..], start + |LocalRecord(ordered[0])| + ordered[0].compressSize, end);
    }
  }

  lemma {:induction false} CentralHolds(file: bytes, infos: seq<ZipInfo>, start: nat, info: ZipInfo) returns (c: nat)
    requires At(file, start, CentralBytes(infos)) && info in infos
    ensures start <= c && At(file, c, CentralRecord(info))
  {
    hide CentralRecord, At;
    AtCons(file, start, CentralRecord(infos[0]), CentralBytes(infos[1..]));
    if info == infos[0] {
      c := start;
    } else {
      c := CentralHolds(file, infos[1..], start + |CentralRecord(infos[0])|, info);
    }
  }

  /**
   Each member has a central record behind all local data and a local record at the offset
   the central one names; both spell the one member, so name, flags, CRC and sizes agree.
   */
  lemma MembersAgree(
    file: bytes, infos: seq<ZipInfo>, maxEntries: Option<nat>, maxCentralBytes: Option<nat>, info: ZipInfo)
    requires Accepted(file, infos, maxEntries, maxCentralBytes) && info in infos
    ensures exists c ::
      && At(file, c, CentralRecord(info)) && At(file, info.headerOffset, LocalRecord(info))
      && info.headerOffset + |LocalRecord(info)| + info.compressSize <= c
  {
    hide Accepted, LocalRegion, CentralBytes, SortByOffset, HasCanonicalEnd, CentralRecord, LocalRecord, At;
    BundleIsExact(file, infos, maxEntries, maxCentralBytes);
    var g :| IsCanonicalBundle(file, infos, g);
    SortByOffsetKeepsMembers(infos);
    RegionHolds(file, SortByOffset(infos), 0, g.offset, info);
    var c := CentralHolds(file, infos, g.offset, info);
  }

  /**
   The structural half of bundle verification: preflight, envelope check, and the comparison of
   their counts, with every diagnostic going through the bounded list.
   */
  method VerifyZipStructure(file: bytes, infos: seq<ZipInfo>, maxEntries: Option<nat>, maxCentralBytes: Option<nat>)
    returns (ok: bool)
    ensures ok <==>
      WithinLimit(|infos|, maxEntries) &&
      exists g :: IsCanonicalBundle(file, infos, g) && WithinLimit(g.size, maxCentralBytes)
  {
    hide EnvelopeErrors, PreflightOf, IsCanonicalBundle, Contents;
    BundleIsExact(file, infos, maxEntries, maxCentralBytes);
    var preflight := ReadBundleZipPreflight(file, maxEntries, maxCentralBytes);
    if preflight.Err? {
      return false;
    }
    var errors := new Collector<EnvelopeError>(100);
    ZipEnvelopeErrors(file, infos, errors);
    EmptyMeansNothingReported(errors.maximum, errors.history);
    return errors.items == [] && preflight.value.observedEntryCount == |infos|;
  }
}

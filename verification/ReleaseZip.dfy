/**
 The second, independent ZIP check: the record geometry of a release archive
 (finalize_release_distributions.py, `_validate_zip_raw_geometry`). It knows no ZIP64 and no
 extra fields. Every fault it finds becomes one and the same RuntimeError, so the model only
 says whether it accepts.
 */
module ReleaseZip {
  import opened Struct
  import opened Utf8
  import opened ZipFormat
  import opened ZipPreflight
  import opened ZipEndLemmas
  import opened ZipBundle
  import opened StableSort
  import opened Inflate

  /** One central record; `madeBy` and the attributes are read but not checked. */
  datatype Record = Record(
    name: bytes, madeBy: nat, version: nat, flags: nat, compression: nat, time: nat, date: nat,
    crc: nat, packedSize: nat, size: nat, internalAttr: nat, externalAttr: nat, offset: nat)

  /** The attributes of `zipfile.ZipInfo` this check compares with. */
  datatype Parsed = Parsed(
    rawName: Text, flagBits: nat, compressType: nat, crc: nat, compressSize: nat, fileSize: nat,
    headerOffset: nat, extractVersion: nat, extra: bytes, comment: bytes)

  /** zlib, as far as the check sees it: raw inflation, the pace it goes at, and CRC-32. */
  datatype Codec = Codec(deflate: Deflate, pace: Pace, crc32: bytes -> nat)

  function CentralValuesOf(r: Record): (v: seq<nat>)
    ensures |v| == |CENTRAL_HEADER|
  {
    [ CENTRAL_SIGNATURE, r.madeBy, r.version, r.flags, r.compression, r.time, r.date, r.crc,
      r.packedSize, r.size, |r.name|, 0, 0, 0, r.internalAttr, r.externalAttr, r.offset ]
  }

  function LocalValuesOf(r: Record): (v: seq<nat>)
    ensures |v| == |LOCAL_HEADER|
  {
    [ LOCAL_SIGNATURE, r.version, r.flags, r.compression, r.time, r.date, r.crc,
      r.packedSize, r.size, |r.name|, 0 ]
  }

  function CentralPart(r: Record): bytes {
    Pack(CENTRAL_HEADER, CentralValuesOf(r)) + r.name
  }

  function LocalPart(r: Record): bytes {
    Pack(LOCAL_HEADER, LocalValuesOf(r)) + r.name
  }

  function CentralParts(records: seq<Record>): bytes {
    if records == [] then [] else CentralPart(records[0]) + CentralParts(records[1..])
  }

  predicate InRange(r: Record) {
    && r.madeBy <= UINT16_MAX && r.version <= UINT16_MAX && r.flags <= UINT16_MAX && r.compression <= UINT16_MAX
    && r.time <= UINT16_MAX && r.date <= UINT16_MAX && |r.name| <= UINT16_MAX && r.internalAttr <= UINT16_MAX
    && r.crc <= UINT32_MAX && r.packedSize <= UINT32_MAX && r.size <= UINT32_MAX
    && r.externalAttr <= UINT32_MAX && r.offset <= UINT32_MAX
  }

  /** A record in the subset of the format that releases use. */
  predicate Canonical(r: Record) {
    && (r.flags == 0 || r.flags == 0x800)
    && (r.compression == STORED || r.compression == DEFLATED)
    && r.packedSize != UINT32_MAX && r.size != UINT32_MAX && r.offset != UINT32_MAX
  }

  ghost predicate AllRecords(records: seq<Record>) {
    forall r :: r in records ==> InRange(r) && Canonical(r)
  }

  lemma RangesFit(r: Record)
    ensures InRange(r) <==> Fits(CENTRAL_HEADER, CentralValuesOf(r))
    ensures InRange(r) ==> Fits(LOCAL_HEADER, LocalValuesOf(r))
  {
    Pow256Values();
    var v := CentralValuesOf(r);
    if Fits(CENTRAL_HEADER, v) {
      assert forall i :: 0 <= i < 17 ==> v[i] < Pow256(CENTRAL_HEADER[i]);
      assert v[1] < Pow256(CENTRAL_HEADER[1]) && v[2] < Pow256(CENTRAL_HEADER[2]) && v[3] < Pow256(CENTRAL_HEADER[3]);
      assert v[4] < Pow256(CENTRAL_HEADER[4]) && v[5] < Pow256(CENTRAL_HEADER[5]) && v[6] < Pow256(CENTRAL_HEADER[6]);
      assert v[7] < Pow256(CENTRAL_HEADER[7]) && v[8] < Pow256(CENTRAL_HEADER[8]) && v[9] < Pow256(CENTRAL_HEADER[9]);
      assert v[10] < Pow256(CENTRAL_HEADER[10]) && v[14] < Pow256(CENTRAL_HEADER[14]);
      assert v[15] < Pow256(CENTRAL_HEADER[15]) && v[16] < Pow256(CENTRAL_HEADER[16]);
    }
  }

  // ----- the end record -----

  const RELEASE_TAIL: nat := 22 + UINT16_MAX

  /** An end record whose comment ends the data exactly. */
  predicate IsExactEnd(data: bytes, offset: nat) {
    HasSignatureAt(data, offset, END_SIGNATURE) && offset + 22 <= |data| &&
    offset + 22 + EndFields(data, offset)[7] == |data|
  }

  function LastExactEnd(data: bytes, hi: nat): (offset: int)
    ensures offset == -1 || (0 <= offset < hi && IsExactEnd(data, offset))
    ensures forall i: nat :: i < hi && IsExactEnd(data, i) ==> i <= offset
  {
    if hi == 0 then -1
    else if IsExactEnd(data, hi - 1) then hi - 1
    else LastExactEnd(data, hi - 1)
  }

  /** The backward search; each `rfind` resumes strictly below the last signature. */
  method FindExactEnd(data: bytes) returns (offset: int)
    ensures offset == LastExactEnd(data, |data|)
  {
    offset := RFind(data, 0, |data|);
    while offset >= 0
      invariant offset == -1 || (0 <= offset && HasSignatureAt(data, offset, END_SIGNATURE))
      invariant forall i: nat :: offset < i && IsExactEnd(data, i) ==> false
    {
      if offset + 22 <= |data| && offset + 22 + EndFields(data, offset)[7] == |data| {
        assert IsExactEnd(data, offset) && offset < |data|;
        return;
      }
      var next := RFind(data, 0, offset);
      forall i: nat | next < i ensures !IsExactEnd(data, i) {
        if i < offset && IsExactEnd(data, i) {
          SignaturesApart(data, i, offset);
        }
      }
      offset := next;
    }
  }

  function ReleaseTailStart(file: bytes): (start: nat)
    ensures start <= |file|
  {
    |file| - Min(|file|, RELEASE_TAIL)
  }

  function DecodeReleaseEnd(file: bytes, eocd: nat, v: seq<nat>): Option<Geometry>
    requires |v| == 8
  {
    if v[7] != 0 || v[1] != 0 || v[2] != 0 || v[3] != v[4] then None
    else if v[4] == UINT16_MAX || v[5] == UINT32_MAX || v[6] == UINT32_MAX then None
    else if eocd >= 20 && HasSignatureAt(file, eocd - 20, ZIP64_LOCATOR_SIGNATURE) then None
    else if v[6] + v[5] != eocd then None
    else Some(Geometry(v[6], v[5], v[4]))
  }

  function ReleaseEnd(file: bytes): Option<Geometry> {
    if |file| < 22 then None
    else
      var tail := file[ReleaseTailStart(file)..];
      var relative := LastExactEnd(tail, |tail|);
      if relative == -1 then None
      else DecodeReleaseEnd(file, ReleaseTailStart(file) + relative, EndFields(tail, relative))
  }

  function ReleaseEndValues(g: Geometry): seq<nat> {
    [END_SIGNATURE, 0, 0, g.declared, g.declared, g.size, g.offset, 0]
  }

  /** A file that ends in one plain end record for `g`, right behind the central directory. */
  ghost predicate HasReleaseEnd(file: bytes, g: Geometry) {
    && g.declared < UINT16_MAX && g.size < UINT32_MAX && g.offset < UINT32_MAX
    && g.offset + g.size + 22 == |file|
    && file[|file| - 22..] == Pack(END_RECORD, ReleaseEndValues(g))
    && !HasLocator(file, |file| - 22)
  }

  lemma ReleaseEndFits(g: Geometry)
    requires g.declared < UINT16_MAX && g.size < UINT32_MAX && g.offset < UINT32_MAX
    ensures Fits(END_RECORD, ReleaseEndValues(g))
  {
    Pow256Values();
  }

  lemma ReleaseEndAccepted(file: bytes, g: Geometry)
    requires HasReleaseEnd(file, g)
    ensures ReleaseEnd(file) == Some(g)
  {
    hide Pack, Unpack, Le, LastExactEnd, Width, Fits;
    HeaderWidths();
    var tail := file[ReleaseTailStart(file)..];
    var at := |tail| - 22;
    var record, v := file[|file| - 22..], ReleaseEndValues(g);
    ReleaseEndFits(g);
    TerminalRecord(record, v);
    assert tail[at..at + 22] == record && tail[at..at + 4] == record[..4];
    assert EndFields(tail, at) == v;
    assert IsExactEnd(tail, at);
    LocatorPrefix(file);
  }

  /** The 4-byte probe for a locator sees what the 20-byte read sees. */
  lemma LocatorPrefix(file: bytes)
    requires |file| >= 22
    ensures HasLocator(file, |file| - 22) <==>
      |file| >= 42 && HasSignatureAt(file, |file| - 42, ZIP64_LOCATOR_SIGNATURE)
  {
    hide Le;
    if |file| >= 42 {
      assert file[|file| - 42..|file| - 22][..4] == file[|file| - 42..|file| - 38];
    }
  }

  lemma ReleaseEndIsLast(file: bytes, g: Geometry)
    requires ReleaseEnd(file) == Some(g)
    ensures HasReleaseEnd(file, g)
  {
    hide Pack, Unpack, Le, LastExactEnd, Width, HasLocator;
    HeaderWidths();
    var tail := file[ReleaseTailStart(file)..];
    var relative := LastExactEnd(tail, |tail|);
    var v := EndFields(tail, relative);
    var record := tail[relative..relative + 22];
    assert record == file[|file| - 22..];
    PackUnpack(END_RECORD, record);
    FirstField(END_RECORD, record);
    assert record[..4] == tail[relative..relative + 4];
    assert v == ReleaseEndValues(g);
    BoundsOfEnd(v);
    LocatorPrefix(file);
  }

  lemma BoundsOfEnd(v: seq<nat>)
    requires Fits(END_RECORD, v)
    ensures v[4] <= UINT16_MAX && v[5] <= UINT32_MAX && v[6] <= UINT32_MAX
  {
    Pow256Values();
    assert v[4] < Pow256(END_RECORD[4]) && v[5] < Pow256(END_RECORD[5]) && v[6] < Pow256(END_RECORD[6]);
  }

  /** The end record search accepts a geometry exactly when the file ends in its plain end record. */
  lemma ReleaseEndIsExact(file: bytes, g: Geometry)
    ensures ReleaseEnd(file) == Some(g) <==> HasReleaseEnd(file, g)
  {
    if ReleaseEnd(file) == Some(g) {
      ReleaseEndIsLast(file, g);
    }
    if HasReleaseEnd(file, g) {
      ReleaseEndAccepted(file, g);
    }
  }

  method ReadReleaseEnd(file: bytes) returns (g: Option<Geometry>)
    ensures g == ReleaseEnd(file)
  {
    if |file| < 22 {
      return None;
    }
    var start := ReleaseTailStart(file);
    var tail := file[start..];
    var relative := FindExactEnd(tail);
    if relative < 0 {
      return None;
    }
    return DecodeReleaseEnd(file, start + relative, EndFields(tail, relative));
  }

  // ----- central records -----

  function RecordFrom(v: seq<nat>, name: bytes): Record
    requires |v| == 17
  {
    Record(name, v[1], v[2], v[3], v[4], v[5], v[6], v[7], v[8], v[9], v[14], v[15], v[16])
  }

  /** The checks on one central header that concern neither its bounds nor its parsed member. */
  predicate PlainHeader(v: seq<nat>)
    requires |v| == 17
  {
    && v[0] == CENTRAL_SIGNATURE
    && v[8] != UINT32_MAX && v[9] != UINT32_MAX && v[16] != UINT32_MAX && v[13] != UINT16_MAX
    && v[13] == 0
    && (v[3] == 0 || v[3] == 0x800)
    && (v[4] == STORED || v[4] == DEFLATED)
    && v[11] == 0 && v[12] == 0
  }

  function ReadRecord(file: bytes, position: nat, end: nat): Option<Record> {
    HeaderWidths();
    var header := ReadExactAt(file, position, 46);
    if header.None? then None
    else
      var v := Unpack(CENTRAL_HEADER, header.value);
      if !PlainHeader(v) || position + 46 + v[10] > end then None
      else
        var name := ReadExactAt(file, position + 46, v[10]);
        if name.None? then None else Some(RecordFrom(v, name.value))
  }

  lemma ReadRecordExact(file: bytes, position: nat, end: nat, r: Record)
    requires end <= |file|
    ensures ReadRecord(file, position, end) == Some(r) <==>
      && InRange(r) && Canonical(r)
      && At(file, position, CentralPart(r)) && position + |CentralPart(r)| <= end
  {
    hide Pack, Unpack, Width, Fits, InRange;
    HeaderWidths();
    RangesFit(r);
    RecordAt(file, position, CENTRAL_HEADER, CentralValuesOf(r), r.name);
    if ReadRecord(file, position, end) == Some(r) {
      assert Unpack(CENTRAL_HEADER, file[position..position + 46]) == CentralValuesOf(r);
    }
  }

  /** All records from `position` up to `end`, with nothing between them or left over. */
  function ReadCentral(file: bytes, position: nat, end: nat): Option<seq<Record>>
    decreases end - position
  {
    if position >= end then (if position == end then Some([]) else None)
    else
      match ReadRecord(file, position, end)
      case None => None
      case Some(r) => Prepended(r, ReadCentral(file, position + 46 + |r.name|, end))
  }

  function Prepended(r: Record, rest: Option<seq<Record>>): Option<seq<Record>> {
    match rest
    case None => None
    case Some(rs) => Some([r] + rs)
  }

  lemma PartWidths(r: Record)
    ensures |CentralPart(r)| == 46 + |r.name| && |LocalPart(r)| == 30 + |r.name|
  {
    HeaderWidths();
  }

  lemma AllRecordsCons(records: seq<Record>)
    requires records != []
    ensures AllRecords(records) <==> InRange(records[0]) && Canonical(records[0]) && AllRecords(records[1..])
  {
    assert forall x :: x in records <==> x == records[0] || x in records[1..];
  }

  lemma {:induction false} ReadCentralSound(file: bytes, position: nat, end: nat)
    requires position <= end <= |file| && ReadCentral(file, position, end).Some?
    ensures var rs := ReadCentral(file, position, end).value;
      AllRecords(rs) && At(file, position, CentralParts(rs)) && position + |CentralParts(rs)| == end
    decreases end - position
  {
    hide ReadRecord, CentralPart, InRange, Canonical, AllRecords;
    var rs := ReadCentral(file, position, end).value;
    if position < end {
      var r := ReadRecord(file, position, end).value;
      ReadRecordExact(file, position, end, r);
      PartWidths(r);
      ReadCentralSound(file, position + 46 + |r.name|, end);
      assert rs[1..] == ReadCentral(file, position + 46 + |r.name|, end).value;
      AtCons(file, position, CentralPart(r), CentralParts(rs[1..]));
      AllRecordsCons(rs);
    } else {
      assert AllRecords([]) by { NoRecords(); }
    }
  }

  lemma NoRecords()
    ensures AllRecords([])
  {
  }

  lemma {:induction false} ReadCentralComplete(file: bytes, position: nat, end: nat, rs: seq<Record>)
    requires end <= |file| && AllRecords(rs)
    requires At(file, position, CentralParts(rs)) && position + |CentralParts(rs)| == end
    ensures ReadCentral(file, position, end) == Some(rs)
    decreases |rs|
  {
    hide ReadRecord, CentralPart, InRange, Canonical, AllRecords;
    if rs != [] {
      var r := rs[0];
      PartWidths(r);
      AllRecordsCons(rs);
      AtCons(file, position, CentralPart(r), CentralParts(rs[1..]));
      ReadRecordExact(file, position, end, r);
      ReadCentralComplete(file, position + 46 + |r.name|, end, rs[1..]);
      assert [r] + rs[1..] == rs;
    }
  }

  // ----- parsed members -----

  /** The byte of a character in code page 437, looked for from `i` on. */
  function LegacyByte(c: CodePoint, i: nat): (b: Option<byte>)
    requires i <= |CP437_HIGH|
    ensures b.Some? ==> DecodeCp437Byte(b.value) == c
    decreases |CP437_HIGH| - i
  {
    if c < 0x80 then Some(c)
    else if i == |CP437_HIGH| || i >= 0x80 then None
    else if CP437_HIGH[i] as int == c then Some(0x80 + i)
    else LegacyByte(c, i + 1)
  }

  function EncodeCp437(name: Text): (raw: Option<bytes>)
    ensures raw.Some? ==> DecodeCp437(raw.value) == name
  {
    if name == [] then Some([])
    else
      var first, rest := LegacyByte(name[0], 0), EncodeCp437(name[1..]);
      if first.None? || rest.None? then None else Some([first.value] + rest.value)
  }

  /** `orig_filename.encode(...)`, with `None` for UnicodeEncodeError. */
  function EncodeName(name: Text, flags: nat): Option<bytes> {
    if flags != 0x800 then EncodeCp437(name)
    else if Encodable(name) then Some(Encode(name))
    else None
  }

  predicate Agrees(r: Record, p: Parsed) {
    && EncodeName(p.rawName, r.flags) == Some(r.name)
    && r.flags == p.flagBits && r.compression == p.compressType && r.crc == p.crc
    && r.packedSize == p.compressSize && r.size == p.fileSize && r.offset == p.headerOffset
    && r.version == p.extractVersion && p.extra == [] && p.comment == []
  }

  ghost predicate AllAgree(records: seq<Record>, infos: seq<Parsed>) {
    |records| == |infos| && forall i :: 0 <= i < |records| ==> Agrees(records[i], infos[i])
  }

  /** What the central loop leaves behind: the records, if they are `declared` many and agree with the parser. */
  ghost predicate CentralAccepts(file: bytes, g: Geometry, infos: seq<Parsed>, records: seq<Record>) {
    && ReadCentral(file, g.offset, g.offset + g.size) == Some(records)
    && |records| == g.declared
    && AllAgree(records, infos)
  }

  method ReadCentralMembers(file: bytes, g: Geometry, infos: seq<Parsed>) returns (found: Option<seq<Record>>)
    ensures found.Some? ==> CentralAccepts(file, g, infos, found.value)
    ensures found.None? ==> forall records :: !CentralAccepts(file, g, infos, records)
  {
    hide ReadRecord, Agrees;
    var position, end := g.offset, g.offset + g.size;
    var members: seq<Record> := [];
    ghost var whole := ReadCentral(file, position, end);
    assert whole.Some? ==> [] + whole.value == whole.value;
    while position < end
      invariant position <= end && |members| <= |infos|
      invariant whole == Joined(members, ReadCentral(file, position, end))
      invariant forall i :: 0 <= i < |members| ==> Agrees(members[i], infos[i])
      decreases end - position
    {
      var r := ReadRecord(file, position, end);
      if r.None? {
        return None;
      }
      RecordEnds(file, position, end, r.value);
      ghost var rest := ReadCentral(file, position + 46 + |r.value.name|, end);
      JoinedPrepended(members, r.value, rest);
      if |members| >= |infos| || !Agrees(r.value, infos[|members|]) {
        assert whole.Some? ==> |whole.value| > |members| && whole.value[|members|] == r.value;
        return None;
      }
      members := members + [r.value];
      position := position + 46 + |r.value.name|;
    }
    assert whole == Some(members + []) && members + [] == members;
    if |members| != g.declared || |members| != |infos| {
      return None;
    }
    return Some(members);
  }

  function Joined(members: seq<Record>, rest: Option<seq<Record>>): Option<seq<Record>> {
    match rest
    case None => None
    case Some(rs) => Some(members + rs)
  }

  lemma JoinedPrepended(members: seq<Record>, r: Record, rest: Option<seq<Record>>)
    ensures Joined(members, Prepended(r, rest)) == Joined(members + [r], rest)
  {
    if rest.Some? {
      assert members + ([r] + rest.value) == members + [r] + rest.value;
    }
  }

  lemma RecordEnds(file: bytes, position: nat, end: nat, r: Record)
    requires ReadRecord(file, position, end) == Some(r)
    ensures position + 46 + |r.name| <= end
  {
    hide Unpack, Width;
  }

  // ----- local records -----

  function SortRecords(records: seq<Record>): (sorted: seq<Record>)
    ensures |sorted| == |records|
  {
    SortBy(records, (r: Record) => r.offset)
  }

  /** The checks on the local record of one member. */
  predicate LocalAgrees(file: bytes, r: Record) {
    HeaderWidths();
    var header := ReadExactAt(file, r.offset, 30);
    header.Some? &&
    var v := Unpack(LOCAL_HEADER, header.value);
    && v[0] == LOCAL_SIGNATURE
    && v[7] != UINT32_MAX && v[8] != UINT32_MAX
    && v[10] == 0
    && ReadExactAt(file, r.offset + 30, v[9]) == Some(r.name)
    && v[1] == r.version && v[2] == r.flags && v[3] == r.compression && v[4] == r.time && v[5] == r.date
    && v[6] == r.crc && v[7] == r.packedSize && v[8] == r.size
  }

  lemma LocalAgreesExact(file: bytes, r: Record)
    requires InRange(r) && Canonical(r)
    ensures LocalAgrees(file, r) <==> At(file, r.offset, LocalPart(r))
  {
    hide Pack, Unpack, Width, Fits, InRange;
    HeaderWidths();
    RangesFit(r);
    RecordAt(file, r.offset, LOCAL_HEADER, LocalValuesOf(r), r.name);
    if LocalAgrees(file, r) {
      assert Unpack(LOCAL_HEADER, file[r.offset..r.offset + 30]) == LocalValuesOf(r);
    }
  }

  /** Local records, each at its record's offset and followed by its data, fill `start..end`. */
  ghost predicate RecordRegion(file: bytes, ordered: seq<Record>, start: nat, end: nat) {
    if ordered == [] then start == end
    else
      var r := ordered[0];
      && r.offset == start
      && At(file, start, LocalPart(r))
      && RecordRegion(file, ordered[1..], start + 30 + |r.name| + r.packedSize, end)
  }

  lemma {:induction false} RegionGrows(file: bytes, ordered: seq<Record>, start: nat, end: nat)
    requires RecordRegion(file, ordered, start, end)
    ensures start <= end
  {
    if ordered != [] {
      RegionGrows(file, ordered[1..], start + 30 + |ordered[0].name| + ordered[0].packedSize, end);
    }
  }

  method CheckLocals(file: bytes, records: seq<Record>, centralOffset: nat) returns (ok: bool)
    requires AllRecords(records)
    ensures ok <==> RecordRegion(file, SortRecords(records), 0, centralOffset)
  {
    hide LocalAgrees, LocalPart, InRange, Canonical, RecordRegion, SortRecords;
    var ordered := SortRecords(records);
    SortKeepsMembers(records, (r: Record) => r.offset);
    assert forall x :: x in ordered ==> x in records by { SortedIn(records); }
    var cursor: nat := 0;
    assert ordered[0..] == ordered;
    for i := 0 to |ordered|
      invariant RecordRegion(file, ordered, 0, centralOffset) <==>
        RecordRegion(file, ordered[i..], cursor, centralOffset)
    {
      var r := ordered[i];
      RegionAt(file, ordered, i, cursor, centralOffset);
      assert r in ordered;
      LocalAgreesExact(file, r);
      if r.offset != cursor || !LocalAgrees(file, r) {
        return false;
      }
      var next := r.offset + 30 + |r.name| + r.packedSize;
      if next > centralOffset {
        if RecordRegion(file, ordered[i + 1..], next, centralOffset) {
          RegionGrows(file, ordered[i + 1..], next, centralOffset);
        }
        return false;
      }
      cursor := next;
    }
    RegionEnd(file, ordered, cursor, centralOffset);
    return cursor == centralOffset;
  }

  lemma SortedIn(records: seq<Record>)
    ensures forall x :: x in SortRecords(records) <==> x in records
  {
    SortKeepsMembers(records, (r: Record) => r.offset);
  }

  lemma RegionAt(file: bytes, ordered: seq<Record>, i: nat, start: nat, end: nat)
    requires i < |ordered|
    ensures RecordRegion(file, ordered[i..], start, end) <==>
      var r := ordered[i];
      && r.offset == start
      && At(file, start, LocalPart(r))
      && RecordRegion(file, ordered[i + 1..], start + 30 + |r.name| + r.packedSize, end)
  {
    hide LocalPart;
    assert ordered[i..][1..] == ordered[i + 1..];
  }

  lemma RegionEnd(file: bytes, ordered: seq<Record>, start: nat, end: nat)
    ensures RecordRegion(file, ordered[|ordered|..], start, end) <==> start == end
  {
  }

  // ----- member streams -----

  /** The packed data of a member, as far as the file has them. */
  function PackedData(file: bytes, r: Record): bytes {
    Held(file, r.offset + 30 + |r.name|, r.packedSize)
  }

  /** A member whose packed data decode to what its record declares, to the last byte. */
  ghost predicate StreamOk(codec: Codec, file: bytes, r: Record) {
    var packed := PackedData(file, r);
    && |packed| == r.packedSize
    && (EndsInSlash(r.name) ==> r.size == 0 && r.crc == 0)
    && (if r.compression == STORED then r.packedSize == r.size && codec.crc32(packed) == r.crc
        else
          && codec.deflate.ends(packed) && |codec.deflate.output(packed)| == r.size
          && codec.crc32(codec.deflate.output(packed)) == r.crc)
  }

  /** One byte more than is still due, and never more than a chunk. */
  function OutputLimit(size: nat): (limit: Limit)
    ensures forall given: nat :: limit(given) == if given > size then 1 else Min(CHUNK, size - given + 1)
  {
    (given: nat) => if given > size then 1 else Min(CHUNK, size - given + 1)
  }

  /** The inflater takes the last byte of this deflated member before all its output was asked for. */
  ghost predicate CutShort(codec: Codec, file: bytes, r: Record)
    requires Lawful(codec.deflate)
  {
    r.compression != STORED &&
    var packed := PackedData(file, r);
    TakesTooSoon(codec.deflate, codec.pace, OutputLimit(r.size), packed, Start(packed))
  }

  /** One chunk of a deflated member; `remaining` says how much is to be read after it. */
  method ReleaseChunk(
    z: Inflater, chunk: bytes, remaining: nat, size: nat, before: bytes, ghost region: bytes, ghost s: Progress)
    returns (ok: bool, data: bytes, ghost t: Progress)
    requires Lawful(z.codec) && !z.eof && chunk != [] && |before| <= size
    requires s.at < s.end <= |region| && chunk == region[s.at..s.end]
    requires InStep(z, region, s, before)
    modifies z
    ensures ok ==>
      && t.at == s.end && t.end == Min(s.end + CHUNK, |region|)
      && InStep(z, region, t, data) && |data| <= size && (z.eof ==> remaining == 0)
    ensures IsGood(z.codec, region, size) && s.end + remaining == |region| ==>
      && ok && (z.eof <==> t.at == |region| && !LeavesSome(z, OutputLimit(size), region, t))
      && (LeavesSome(z, OutputLimit(size), region, t) <==> old(LeavesSome(z, OutputLimit(size), region, s)))
  {
    hide Lawful, AfterCall, TakesTooSoon, LeavesOutput, OutputLimit, Taken;
    ok, data, t := true, before, s;
    var pending := chunk;
    while pending != []
      invariant s.at <= t.at <= s.end && pending == region[t.at..s.end]
      invariant t.end == if pending == [] then Min(s.end + CHUNK, |region|) else s.end
      invariant InStep(z, region, t, data) && |data| <= size && ok
      invariant z.eof ==> pending == [] && remaining == 0
      invariant IsGood(z.codec, region, size) && s.end + remaining == |region| ==>
        && (z.eof ==> t.at == |region|)
        && (LeavesSome(z, OutputLimit(size), region, t) <==> old(LeavesSome(z, OutputLimit(size), region, s)))
      decreases |pending| + (size - |data|)
    {
      ghost var was := t;
      var failed, output, tail, unused := z.Decompress(pending, OutputLimit(size)(|data|));
      t := AfterCall(z.codec, z.pace, OutputLimit(size), region, was);
      StepData(z.codec, z.pace, OutputLimit(size), region, was, data);
      if z.codec.ends(region) {
        GoodCall(z.codec, z.pace, OutputLimit(size), region, was);
      }
      if failed || |data| + |output| > size {
        return false, data, t;
      }
      data := data + output;
      if unused != [] || (z.eof && remaining > 0) {
        return false, data, t;
      }
      if tail != [] && tail == pending && output == [] {
        return false, data, t;
      }
      pending := tail;
    }
    Finished(z, OutputLimit(size), region, t);
  }

  /** The loops over a deflated member: chunks, and calls on each chunk. */
  method ReleaseInflate(packed: bytes, packedSize: nat, size: nat, z: Inflater) returns (ok: bool, data: bytes)
    requires Lawful(z.codec) && z.Valid() && z.fed == [] && z.given == 0 && !z.eof && |packed| <= packedSize
    modifies z
    ensures ok <==>
      && |packed| == packedSize && IsGood(z.codec, packed, size)
      && !TakesTooSoon(z.codec, z.pace, OutputLimit(size), packed, Start(packed))
    ensures ok ==> data == z.codec.output(packed)
  {
    assert !z.codec.ends([]);
    hide Lawful, TakesTooSoon, AfterCall, OutputLimit;
    ok, data := true, [];
    var position, remaining := 0, packedSize;
    ghost var t := Start(packed);
    while remaining > 0
      invariant position == t.at && remaining == packedSize - position && t.end == Min(position + CHUNK, |packed|)
      invariant InStep(z, packed, t, data) && |data| <= size && ok
      invariant z.eof ==> remaining == 0
      invariant IsGood(z.codec, packed, size) && packedSize == |packed| ==>
        && (z.eof <==> t.at == |packed| && !LeavesSome(z, OutputLimit(size), packed, t))
        && (LeavesSome(z, OutputLimit(size), packed, t) <==>
             old(LeavesSome(z, OutputLimit(size), packed, Start(packed))))
    {
      var chunk := ReadUpTo(packed, position, Min(CHUNK, remaining));
      if chunk == [] {
        return false, data;
      }
      remaining := remaining - |chunk|;
      ok, data, t := ReleaseChunk(z, chunk, remaining, size, data, packed, t);
      if !ok {
        return;
      }
      position := position + |chunk|;
    }
    if !z.eof {
      return false, data;
    }
    assert packed[..|packed|] == packed;
  }

  /** `_validate_zip_member_streams` for one member. */
  method ValidateMemberStream(codec: Codec, file: bytes, r: Record) returns (ok: bool)
    requires Lawful(codec.deflate)
    ensures ok <==> StreamOk(codec, file, r) && !CutShort(codec, file, r)
  {
    hide Lawful, TakesTooSoon, OutputLimit;
    if EndsInSlash(r.name) && (r.size != 0 || r.crc != 0) {
      return false;
    }
    var packed := PackedData(file, r);
    var data := packed;
    if r.compression == STORED {
      if r.packedSize != r.size || |packed| != r.packedSize {
        return false;
      }
    } else {
      var z := new Inflater(codec.deflate, codec.pace);
      ok, data := ReleaseInflate(packed, r.packedSize, r.size, z);
      if !ok {
        return;
      }
    }
    return |data| == r.size && codec.crc32(data) == r.crc;
  }

  predicate EndsInSlash(name: bytes) {
    name != [] && name[|name| - 1] == 0x2F
  }

  // ----- the whole check -----

  /** The byte layout the check stands for: local records with data, central records, one end record. */
  ghost predicate IsReleaseFile(file: bytes, records: seq<Record>, g: Geometry) {
    && AllRecords(records)
    && g.declared == |records| && g.size == |CentralParts(records)|
    && RecordRegion(file, SortRecords(records), 0, g.offset)
    && At(file, g.offset, CentralParts(records))
    && HasReleaseEnd(file, g)
  }

  ghost predicate Faithful(file: bytes, infos: seq<Parsed>, codec: Codec, records: seq<Record>, g: Geometry) {
    && IsReleaseFile(file, records, g)
    && AllAgree(records, infos)
    && forall r :: r in records ==> StreamOk(codec, file, r)
  }

  lemma CentralAcceptsExact(file: bytes, g: Geometry, infos: seq<Parsed>, records: seq<Record>)
    requires g.offset + g.size <= |file|
    ensures CentralAccepts(file, g, infos, records) <==>
      && AllRecords(records) && At(file, g.offset, CentralParts(records)) && |CentralParts(records)| == g.size
      && |records| == g.declared && AllAgree(records, infos)
  {
    hide AllRecords, At, CentralParts, AllAgree, ReadCentral;
    if ReadCentral(file, g.offset, g.offset + g.size) == Some(records) {
      ReadCentralSound(file, g.offset, g.offset + g.size);
    }
    if AllRecords(records) && At(file, g.offset, CentralParts(records)) && |CentralParts(records)| == g.size {
      ReadCentralComplete(file, g.offset, g.offset + g.size, records);
    }
  }

  /** A file has one reading only, so a check that fails on it rules out every other. */
  lemma FaithfulIsRead(file: bytes, infos: seq<Parsed>, codec: Codec, records: seq<Record>, g: Geometry)
    requires Faithful(file, infos, codec, records, g)
    ensures ReleaseEnd(file) == Some(g) && CentralAccepts(file, g, infos, records)
  {
    hide AllRecords, At, CentralParts, AllAgree, ReadCentral, RecordRegion, SortRecords;
    ReleaseEndIsExact(file, g);
    CentralAcceptsExact(file, g, infos, records);
  }

  /** Some deflated member is cut short by the inflater, in the one reading the file has. */
  ghost predicate AnyCutShort(codec: Codec, file: bytes, records: seq<Record>)
    requires Lawful(codec.deflate)
  {
    exists r :: r in records && CutShort(codec, file, r)
  }

  /**
   `_validate_zip_raw_geometry` accepts exactly the files that are laid out as local records with
   their data, central records and one end record, that agree with the parsed members and with their
   own streams, and none of whose members the inflater cuts short.
   */
  method ValidateZipRawGeometry(file: bytes, infos: seq<Parsed>, archiveComment: bytes, codec: Codec) returns (ok: bool)
    requires Lawful(codec.deflate)
    ensures ok <==>
      && archiveComment == []
      && exists records, g :: Faithful(file, infos, codec, records, g) && !AnyCutShort(codec, file, records)
  {
    hide Lawful, CutShort, ReleaseEnd, CentralAccepts, RecordRegion, StreamOk, SortRecords, HasReleaseEnd,
      AllRecords, AllAgree,
      CentralParts, At;
    forall records, g | Faithful(file, infos, codec, records, g)
      ensures ReleaseEnd(file) == Some(g) && CentralAccepts(file, g, infos, records)
    {
      FaithfulIsRead(file, infos, codec, records, g);
    }
    var end := ReadReleaseEnd(file);
    if end.None? || archiveComment != [] {
      return false;
    }
    var g := end.value;
    ReleaseEndIsExact(file, g);
    EndInside(file, g);
    var found := ReadCentralMembers(file, g, infos);
    if found.None? {
      return false;
    }
    var records := found.value;
    forall other | CentralAccepts(file, g, infos, other) ensures other == records {
      OneReading(file, g, infos, records, other);
    }
    CentralAcceptsExact(file, g, infos, records);
    ok := CheckLocals(file, records, g.offset);
    if !ok {
      return false;
    }
    for i := 0 to |records|
      invariant forall j :: 0 <= j < i ==> StreamOk(codec, file, records[j]) && !CutShort(codec, file, records[j])
    {
      ok := ValidateMemberStream(codec, file, records[i]);
      if !ok {
        assert records[i] in records;
        return;
      }
    }
    assert Faithful(file, infos, codec, records, g);
    return true;
  }

  lemma EndInside(file: bytes, g: Geometry)
    requires HasReleaseEnd(file, g)
    ensures g.offset + g.size <= |file|
  {
  }

  lemma OneReading(file: bytes, g: Geometry, infos: seq<Parsed>, records: seq<Record>, other: seq<Record>)
    requires CentralAccepts(file, g, infos, records) && CentralAccepts(file, g, infos, other)
    ensures records == other
  {
  }

  // ----- which faithful members are refused -----

  /** Data that fit into one chunk are never cut short. */
  lemma SmallRecordsAreRead(codec: Codec, file: bytes, r: Record)
    requires Lawful(codec.deflate) && StreamOk(codec, file, r) && r.size <= CHUNK
    ensures !CutShort(codec, file, r)
  {
    hide Lawful, TakesTooSoon;
    if r.compression != STORED {
      var packed := PackedData(file, r);
      SmallOutputIsFinished(codec.deflate, codec.pace, OutputLimit(r.size), packed, Start(packed));
    }
  }

  /** An eager decoder cuts short exactly the larger ones among those packed into one chunk. */
  lemma EagerCutsLargeRecords(codec: Codec, file: bytes, r: Record)
    requires Lawful(codec.deflate) && Eager(codec.pace) && StreamOk(codec, file, r)
    requires r.compression != STORED && r.packedSize <= CHUNK
    ensures CutShort(codec, file, r) <==> r.size > CHUNK
  {
    hide Lawful, TakesTooSoon, Eager;
    EagerOnOneChunk(codec.deflate, codec.pace, OutputLimit(r.size), PackedData(file, r));
  }

  /** The different output limits of the two ZIP readers cut the same streams short. */
  lemma ReadersCutAlike(c: Deflate, pace: Pace, region: bytes)
    requires Lawful(c)
    ensures IsAt(c, region, Start(region))
    ensures TakesTooSoon(c, pace, EACH_CALL, region, Start(region)) <==>
      TakesTooSoon(c, pace, OutputLimit(|c.output(region)|), region, Start(region))
  {
    hide Lawful, TakesTooSoon;
    SameVerdict(c, pace, EACH_CALL, OutputLimit(|c.output(region)|), region, Start(region));
  }

  // ----- what acceptance means -----

  /** The local records with the data behind each, cut from the file. */
  ghost function RegionBytes(file: bytes, ordered: seq<Record>, start: nat): bytes
    decreases |ordered|
  {
    if ordered == [] then []
    else
      var r := ordered[0];
      var data := start + 30 + |r.name|;
      var next := data + r.packedSize;
      LocalPart(r) + (if next <= |file| then file[data..next] else []) + RegionBytes(file, ordered[1..], next)
  }

  lemma {:induction false} RegionIsBytes(file: bytes, ordered: seq<Record>, start: nat, end: nat)
    requires RecordRegion(file, ordered, start, end) && end <= |file|
    ensures start <= end && file[start..end] == RegionBytes(file, ordered, start)
    decreases |ordered|
  {
    if ordered != [] {
      var r, rest := ordered[0], ordered[1..];
      PartWidths(r);
      RegionUnfold(file, ordered, start, end);
      hide *;
      var data := start + 30 + |r.name|;
      var next := data + r.packedSize;
      RegionIsBytes(file, rest, next, end);
      Cut3(file, start, data, next, end);
    }
  }

  lemma RegionUnfold(file: bytes, ordered: seq<Record>, start: nat, end: nat)
    requires RecordRegion(file, ordered, start, end) && end <= |file| && ordered != []
    ensures var r := ordered[0];
      var data := start + 30 + |r.name|;
      var next := data + r.packedSize;
      && next <= end
      && At(file, start, LocalPart(r)) && |LocalPart(r)| == 30 + |r.name| && file[start..data] == LocalPart(r)
      && RecordRegion(file, ordered[1..], next, end)
      && RegionBytes(file, ordered, start) == LocalPart(r) + file[data..next] + RegionBytes(file, ordered[1..], next)
  {
    PartWidths(ordered[0]);
    hide LocalPart;
    RegionGrows(file, ordered[1..], start + 30 + |ordered[0].name| + ordered[0].packedSize, end);
  }

  /** Every byte of an accepted archive is in a local record, its data, a central record or the end record. */
  lemma ReleaseHidesNothing(file: bytes, records: seq<Record>, g: Geometry)
    requires IsReleaseFile(file, records, g)
    ensures file ==
      RegionBytes(file, SortRecords(records), 0) + CentralParts(records) + Pack(END_RECORD, ReleaseEndValues(g))
  {
    hide AllRecords, CentralParts, RecordRegion, SortRecords, RegionBytes, Pack, HasLocator;
    RegionIsBytes(file, SortRecords(records), 0, g.offset);
    assert file == file[..g.offset] + file[g.offset..g.offset + g.size] + file[g.offset + g.size..];
    assert file[..g.offset] == file[0..g.offset];
  }

  /** The bundle preflight counts the records of a release archive one by one. */
  lemma {:induction false} CountsRecords(
    file: bytes, position: nat, end: nat, observed: nat, maxEntries: Option<nat>, rs: seq<Record>)
    requires AllRecords(rs) && WithinLimit(observed, maxEntries)
    requires At(file, position, CentralParts(rs)) && position + |CentralParts(rs)| == end
    ensures CountCentral(file, position, end, observed, maxEntries) ==
      if WithinLimit(observed + |rs|, maxEntries) then Ok(observed + |rs|) else Err(LimitExceeded(EntryCountTooLarge))
    decreases |rs|
  {
    hide CentralPart, InRange, Canonical, AllRecords, CountCentral, Le, CentralRecordSize;
    CountNone(file, position, observed, maxEntries);
    if rs != [] {
      var r := rs[0];
      PartWidths(r);
      AllRecordsCons(rs);
      AtCons(file, position, CentralPart(r), CentralParts(rs[1..]));
      CountUnfold(file, position, end, observed, maxEntries);
      CountedSize(file, position, r);
      if WithinLimit(observed + 1, maxEntries) {
        CountsRecords(file, position + 46 + |r.name|, end, observed + 1, maxEntries, rs[1..]);
      }
    }
  }

  lemma CountNone(file: bytes, position: nat, observed: nat, maxEntries: Option<nat>)
    ensures CountCentral(file, position, position, observed, maxEntries) == Ok(observed)
  {
  }

  lemma CountedSize(file: bytes, position: nat, r: Record)
    requires InRange(r) && At(file, position, CentralPart(r))
    ensures |CentralPart(r)| == 46 + |r.name| && position + 46 <= |file|
    ensures Le(file[position..position + 46][..4]) == CENTRAL_SIGNATURE
    ensures CentralRecordSize(file[position..position + 46]) == 46 + |r.name|
  {
    hide Pack, Unpack, Width, Fits, InRange, Le, CentralPart, At;
    HeaderWidths();
    PartWidths(r);
    RangesFit(r);
    PartAt(file, position, r);
    CentralLengths(file[position..position + 46]);
  }

  lemma PartAt(file: bytes, position: nat, r: Record)
    requires Fits(CENTRAL_HEADER, CentralValuesOf(r)) && Width(CENTRAL_HEADER) == 46
    requires At(file, position, CentralPart(r))
    ensures position + 46 <= |file|
    ensures Unpack(CENTRAL_HEADER, file[position..position + 46]) == CentralValuesOf(r)
  {
    hide Pack, Unpack, Width, Fits, At;
    RecordAt(file, position, CENTRAL_HEADER, CentralValuesOf(r), r.name);
  }

  /**
   The two ZIP checks agree: an archive of release geometry passes the bundle preflight exactly
   when its directory lies below the ZIP64 limits and within the caller's, and both see the same
   number of entries.
   */
  lemma ReleasePassesPreflight(
    file: bytes, records: seq<Record>, g: Geometry, maxEntries: Option<nat>, maxCentralBytes: Option<nat>)
    requires IsReleaseFile(file, records, g)
    ensures PreflightOf(file, maxEntries, maxCentralBytes).Ok? <==>
      && g.size <= ZIP64_LIMIT && g.offset <= ZIP64_LIMIT
      && WithinLimit(|records|, maxEntries) && WithinLimit(g.size, maxCentralBytes)
    ensures PreflightOf(file, maxEntries, maxCentralBytes).Ok? ==>
      PreflightOf(file, maxEntries, maxCentralBytes).value ==
        Preflight(|file|, |records|, |records|, g.size, g.offset)
  {
    hide AllRecords, CentralParts, RecordRegion, SortRecords, At, Pack, HasLocator, CountCentral, ReadEnd, Fits, Width,
      DecodeZip64End;
    HeaderWidths();
    ReleaseEndFits(g);
    TerminalRecordIsFound(file, ReleaseEndValues(g));
    CountsRecords(file, g.offset, g.offset + g.size, 0, maxEntries, records);
  }
}

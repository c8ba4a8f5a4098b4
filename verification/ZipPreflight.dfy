/** The bounded first pass over a bundle: the end records, then a count of the central records. */
module ZipPreflight {
  import opened Struct
  import opened Utf8
  import opened ZipFormat

  datatype Rejection =
    | NotZip
    | LimitExceeded(code: LimitCode)
    | Invalid(reason: InvalidReason)

  datatype LimitCode =
    | TrailingBytes
    | ArchiveComment
    | Zip64NotRequired
    | Zip64Required
    | LocalGapOrPreamble
    | CentralDirectoryTooLarge
    | EntryCountTooLarge

  datatype InvalidReason =
    | ReadFailed
    | MultiDisk
    | Zip64RecordMissing
    | Zip64RecordNotAdjacent
    | Zip64Version
    | Zip64Disks
    | LegacyFields
    | CentralGeometry
    | CentralRecordGap
    | CentralRecordBounds
    | CountMismatch

  datatype Result<+T> = Ok(value: T) | Err(error: Rejection)

  /** Where the end records put the central directory, and how many records they declare. */
  datatype Geometry = Geometry(offset: nat, size: nat, declared: nat)

  datatype Preflight = Preflight(
    fileSize: nat, declaredEntryCount: nat, observedEntryCount: nat,
    centralDirectorySize: nat, centralDirectoryOffset: nat)

  const MAX_TAIL: nat := 22 + UINT16_MAX + 4096

  predicate HasSignatureAt(data: bytes, offset: nat, signature: nat) {
    offset + 4 <= |data| && Le(data[offset..offset + 4]) == signature
  }

  /** `data.rfind(signature, lo, hi)` for the end-record signature. */
  function RFind(data: bytes, lo: nat, hi: nat): (offset: int)
    requires hi <= |data|
    ensures offset == -1 || (lo <= offset <= hi - 4 && HasSignatureAt(data, offset, END_SIGNATURE))
    ensures forall i :: lo <= i <= hi - 4 && HasSignatureAt(data, i, END_SIGNATURE) ==> i <= offset
    decreases hi
  {
    if hi < lo + 4 then -1
    else if HasSignatureAt(data, hi - 4, END_SIGNATURE) then hi - 4
    else RFind(data, lo, hi - 1)
  }

  function EndFields(data: bytes, offset: nat): (v: seq<nat>)
    requires offset + 22 <= |data|
    ensures |v| == 8
  {
    HeaderWidths();
    Unpack(END_RECORD, data[offset..offset + 22])
  }

  /** An end record whose declared comment fits in the data. */
  predicate IsCandidate(data: bytes, offset: nat) {
    HasSignatureAt(data, offset, END_SIGNATURE) && offset + 22 <= |data| &&
    offset + 22 + EndFields(data, offset)[7] <= |data|
  }

  /** The terminal record without a comment, which `zipfile` prefers over any other. */
  predicate HasTerminalRecord(data: bytes) {
    |data| >= 22 && HasSignatureAt(data, |data| - 22, END_SIGNATURE) && data[|data| - 2..] == [0, 0]
  }

  function SearchStart(data: bytes): nat {
    if |data| <= MAX_TAIL then 0 else |data| - MAX_TAIL
  }

  /** The last candidate at or after `lo` and before `hi`, or -1: a byte-by-byte scan. */
  function LastCandidate(data: bytes, lo: nat, hi: nat): (offset: int)
    ensures offset == -1 || (lo <= offset < hi && IsCandidate(data, offset))
    ensures forall i :: lo <= i < hi && IsCandidate(data, i) ==> i <= offset
    decreases hi
  {
    if hi <= lo then -1
    else if IsCandidate(data, hi - 1) then hi - 1
    else LastCandidate(data, lo, hi - 1)
  }

  /** Where the end record is, or -1: the terminal record if there is one, else the last candidate. */
  function EndOffset(data: bytes): (offset: int)
    ensures offset == -1 || (offset >= 0 && IsCandidate(data, offset))
  {
    if HasTerminalRecord(data) then
      TerminalRecordIsCandidate(data);
      |data| - 22
    else LastCandidate(data, SearchStart(data), |data|)
  }

  lemma SignatureBytes(data: bytes, i: nat)
    requires HasSignatureAt(data, i, END_SIGNATURE)
    ensures data[i..i + 4] == [0x50, 0x4B, 0x05, 0x06]
  {
    var b := data[i..i + 4];
    var b0: int, b1: int, b2: int, b3: int := b[0], b[1], b[2], b[3];
    assert b[1..][1..] == b[2..] && b[2..][1..] == b[3..] && b[3..][1..] == [];
    assert Le(b[3..]) == b3;
    assert Le(b[2..]) == b2 + 256 * b3;
    assert Le(b[1..]) == b1 + 256 * (b2 + 256 * b3);
    assert Le(b) == b0 + 256 * (b1 + 256 * (b2 + 256 * b3));
  }

  /** Two end-record signatures never overlap, so `rfind` may resume below the one it found. */
  lemma SignaturesApart(data: bytes, i: nat, j: nat)
    requires HasSignatureAt(data, i, END_SIGNATURE) && HasSignatureAt(data, j, END_SIGNATURE)
    requires i < j
    ensures i + 4 <= j
  {
    SignatureBytes(data, i);
    SignatureBytes(data, j);
    assert data[j] == 0x50 by { assert data[j..j + 4][0] == data[j]; }
    assert forall k :: i < k < i + 4 ==> data[k] == data[i..i + 4][k - i];
  }

  method FindEocd(data: bytes) returns (located: Option<(nat, seq<nat>)>)
    ensures located.None? <==> EndOffset(data) == -1
    ensures located.Some? ==>
      located.value.0 == EndOffset(data) && located.value.1 == EndFields(data, located.value.0)
  {
    var minimum := SearchStart(data);
    if HasTerminalRecord(data) {
      TerminalRecordIsCandidate(data);
      return Some((|data| - 22, EndFields(data, |data| - 22)));
    }
    var cursor := |data|;
    while true
      invariant 0 <= cursor <= |data|
      invariant forall i :: minimum <= i && cursor < i + 4 ==> !IsCandidate(data, i)
      decreases cursor
    {
      var offset := RFind(data, minimum, cursor);
      if offset < 0 {
        return None;
      }
      if offset + 22 <= |data| {
        var values := EndFields(data, offset);
        if offset + 22 + values[7] <= |data| {
          assert IsCandidate(data, offset);
          assert forall i :: minimum <= i < |data| && IsCandidate(data, i) ==> i <= offset;
          return Some((offset, values));
        }
      }
      forall i: nat | minimum <= i && offset < i + 4 ensures !IsCandidate(data, i) {
        if i < offset && IsCandidate(data, i) {
          SignaturesApart(data, i, offset);
        }
      }
      cursor := offset;
    }
  }

  lemma TerminalRecordIsCandidate(data: bytes)
    requires HasTerminalRecord(data)
    ensures IsCandidate(data, |data| - 22) && EndFields(data, |data| - 22)[7] == 0
  {
    TerminalComment(data[|data| - 22..]);
    assert data[|data| - 22..|data| - 22 + 22] == data[|data| - 22..];
    assert data[|data| - 22..][20..] == data[|data| - 2..];
    assert Le([0, 0]) == 0 + 256 * Le([0, 0][1..]) && [0, 0][1..] == [0];
  }

  lemma TerminalComment(record: bytes)
    requires |record| == 22
    ensures Width(END_RECORD) == 22
    ensures Unpack(END_RECORD, record)[7] == Le(record[20..])
  {
    HeaderWidths();
    var f := I(1) + H(4) + I(2);
    WidthAppend(f, H(1));
    WidthRun(2, 1);
    var last := record[20..];
    UnpackAppend(f, H(1), record[..20], last);
    assert record[..20] + last == record;
    assert Unpack(H(1), last)[0] == Le(last[..2]);
    assert last[..2] == last;
  }

  /** Whether the 20 bytes before the end record start with the ZIP64 locator signature. */
  predicate HasLocator(file: bytes, eocd: nat) {
    var locator := ReadExactAt(file, eocd - 20, 20);
    locator.Some? && Le(locator.value[..4]) == ZIP64_LOCATOR_SIGNATURE
  }

  /** The central directory must end exactly where the end records begin. */
  function Place(g: Geometry, boundary: nat, fileSize: nat): (r: Result<Geometry>)
    ensures r.Ok? ==> r.value == g && g.offset + g.size == boundary <= fileSize
  {
    if g.offset + g.size < boundary then Err(LimitExceeded(LocalGapOrPreamble))
    else if g.offset + g.size != boundary || boundary > fileSize then Err(Invalid(CentralGeometry))
    else Ok(g)
  }

  function DecodeZip64End(file: bytes, eocd: nat, v: seq<nat>): Result<Geometry>
    requires |v| == 8 && HasLocator(file, eocd)
  {
    HeaderWidths();
    var l := Unpack(ZIP64_LOCATOR, file[eocd - 20..eocd]);
    var record := ReadExactAt(file, l[2], 56);
    if l[1] != 0 || l[3] != 1 then Err(Invalid(MultiDisk))
    else if record.None? then Err(Invalid(ReadFailed))
    else
      var z := Unpack(ZIP64_END_RECORD, record.value);
      if z[0] != ZIP64_END_SIGNATURE then Err(Invalid(Zip64RecordMissing))
      else if z[1] != 44 || l[2] + 56 != eocd - 20 then Err(Invalid(Zip64RecordNotAdjacent))
      else if z[2] != 45 || z[3] != 45 then Err(Invalid(Zip64Version))
      else if z[4] != 0 || z[5] != 0 || z[6] != z[7] then Err(Invalid(Zip64Disks))
      else if !EndZip64Required(z[7], z[8], z[9]) then Err(LimitExceeded(Zip64NotRequired))
      else if
        v[3] != Min(z[7], UINT16_MAX) || v[4] != Min(z[7], UINT16_MAX) ||
        v[5] != Min(z[8], UINT32_MAX) || v[6] != Min(z[9], UINT32_MAX)
      then Err(Invalid(LegacyFields))
      else Place(Geometry(z[9], z[8], z[7]), l[2], |file|)
  }

  function DecodeEnd(file: bytes, eocd: nat, v: seq<nat>): Result<Geometry>
    requires |v| == 8
  {
    if eocd + 22 + v[7] != |file| then Err(LimitExceeded(TrailingBytes))
    else if v[7] != 0 then Err(LimitExceeded(ArchiveComment))
    else if v[1] != 0 || v[2] != 0 || v[3] != v[4] then Err(Invalid(MultiDisk))
    else if HasLocator(file, eocd) then DecodeZip64End(file, eocd, v)
    else if v[5] > ZIP64_LIMIT || v[6] > ZIP64_LIMIT then Err(LimitExceeded(Zip64Required))
    else Place(Geometry(v[6], v[5], v[4]), eocd, |file|)
  }

  function TailStart(file: bytes): (start: nat)
    ensures start <= |file|
  {
    |file| - Min(|file|, MAX_TAIL)
  }

  function ReadEnd(file: bytes): Result<Geometry> {
    if |file| < 22 then Err(NotZip)
    else
      var tail := file[TailStart(file)..];
      var relative := EndOffset(tail);
      if relative == -1 then Err(NotZip)
      else DecodeEnd(file, TailStart(file) + relative, EndFields(tail, relative))
  }

  /** The size of the central record at `cursor`, from its three length fields. */
  function CentralRecordSize(header: bytes): nat
    requires |header| == 46
  {
    46 + Le(header[28..30]) + Le(header[30..32]) + Le(header[32..34])
  }

  function CountCentral(
    file: bytes, cursor: nat, end: nat, observed: nat, maxEntries: Option<nat>): Result<nat>
    decreases end - cursor
  {
    if cursor >= end then Ok(observed)
    else if maxEntries.Some? && observed >= maxEntries.value then Err(LimitExceeded(EntryCountTooLarge))
    else
      var header := ReadExactAt(file, cursor, 46);
      if header.None? then Err(Invalid(ReadFailed))
      else if Le(header.value[..4]) != CENTRAL_SIGNATURE then Err(Invalid(CentralRecordGap))
      else
        var size := CentralRecordSize(header.value);
        if cursor + size > end then Err(Invalid(CentralRecordBounds))
        else CountCentral(file, cursor + size, end, observed + 1, maxEntries)
  }

  function PreflightOf(file: bytes, maxEntries: Option<nat>, maxCentralBytes: Option<nat>): Result<Preflight> {
    match ReadEnd(file)
    case Err(e) => Err(e)
    case Ok(g) =>
      if maxCentralBytes.Some? && g.size > maxCentralBytes.value
      then Err(LimitExceeded(CentralDirectoryTooLarge))
      else
        match CountCentral(file, g.offset, g.offset + g.size, 0, maxEntries)
        case Err(e) => Err(e)
        case Ok(observed) =>
          if observed != g.declared then Err(Invalid(CountMismatch))
          else Ok(Preflight(|file|, g.declared, observed, g.size, g.offset))
  }

  method CountCentralRecords(file: bytes, g: Geometry, maxEntries: Option<nat>) returns (r: Result<nat>)
    ensures r == CountCentral(file, g.offset, g.offset + g.size, 0, maxEntries)
  {
    var cursor, centralEnd, observedEntries := g.offset, g.offset + g.size, 0;
    while cursor < centralEnd
      invariant cursor <= centralEnd
      invariant CountCentral(file, g.offset, centralEnd, 0, maxEntries) ==
        CountCentral(file, cursor, centralEnd, observedEntries, maxEntries)
    {
      if maxEntries.Some? && observedEntries >= maxEntries.value {
        return Err(LimitExceeded(EntryCountTooLarge));
      }
      var header := ReadExactAt(file, cursor, 46);
      if header.None? {
        return Err(Invalid(ReadFailed));
      }
      if Le(header.value[..4]) != CENTRAL_SIGNATURE {
        return Err(Invalid(CentralRecordGap));
      }
      var recordSize := CentralRecordSize(header.value);
      if cursor + recordSize > centralEnd {
        return Err(Invalid(CentralRecordBounds));
      }
      cursor := cursor + recordSize;
      observedEntries := observedEntries + 1;
    }
    return Ok(observedEntries);
  }

  method ReadBundleZipPreflight(file: bytes, maxEntries: Option<nat>, maxCentralBytes: Option<nat>)
    returns (r: Result<Preflight>)
    ensures r == PreflightOf(file, maxEntries, maxCentralBytes)
  {
    hide DecodeEnd, CountCentral, EndOffset;
    if |file| < 22 {
      return Err(NotZip);
    }
    var start := TailStart(file);
    var located := FindEocd(file[start..]);
    if located.None? {
      return Err(NotZip);
    }
    var end := DecodeEnd(file, start + located.value.0, located.value.1);
    assert ReadEnd(file) == end;
    if end.Err? {
      return Err(end.error);
    }
    var g := end.value;
    if maxCentralBytes.Some? && g.size > maxCentralBytes.value {
      return Err(LimitExceeded(CentralDirectoryTooLarge));
    }
    var observed := CountCentralRecords(file, g, maxEntries);
    if observed.Err? {
      return Err(observed.error);
    }
    if observed.value != g.declared {
      return Err(Invalid(CountMismatch));
    }
    return Ok(Preflight(|file|, g.declared, observed.value, g.size, g.offset));
  }

  /** The end records the packer writes behind a central directory of that count, size and offset. */
  function LocatorValues(boundary: nat): seq<nat> {
    [ZIP64_LOCATOR_SIGNATURE, 0, boundary, 1]
  }

  function Zip64EndValues(g: Geometry): seq<nat> {
    [ZIP64_END_SIGNATURE, 44, 45, 45, 0, 0, g.declared, g.declared, g.size, g.offset]
  }

  function EndValues(g: Geometry): seq<nat> {
    var count := Min(g.declared, UINT16_MAX);
    [END_SIGNATURE, 0, 0, count, count, Min(g.size, UINT32_MAX), Min(g.offset, UINT32_MAX), 0]
  }

  predicate NeedsZip64(g: Geometry) {
    EndZip64Required(g.declared, g.size, g.offset)
  }

  function Zip64Bytes(g: Geometry): bytes {
    Pack(ZIP64_END_RECORD, Zip64EndValues(g)) + Pack(ZIP64_LOCATOR, LocatorValues(g.offset + g.size))
  }

  function EndBytes(g: Geometry): bytes {
    (if NeedsZip64(g) then Zip64Bytes(g) else []) + Pack(END_RECORD, EndValues(g))
  }

  /** A file whose last bytes are exactly the canonical end records of `g`, right behind the directory. */
  ghost predicate HasCanonicalEnd(file: bytes, g: Geometry) {
    && g.offset + g.size <= |file| && 22 <= |file|
    && file[g.offset + g.size..] == EndBytes(g)
    && (NeedsZip64(g) ==>
      Fits(ZIP64_END_RECORD, Zip64EndValues(g)) && Fits(ZIP64_LOCATOR, LocatorValues(g.offset + g.size)))
    && (!NeedsZip64(g) ==> !HasLocator(file, |file| - 22))
  }
}

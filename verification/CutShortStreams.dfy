/**
 Two archives that are in order and are nevertheless refused: a bundle of the packer's own layout
 whose member is exactly what its entry declares, and a release archive that is faithful.
 */
module CutShortStreams {
  import opened Struct
  import opened Utf8
  import opened ZipFormat
  import opened ZipPreflight
  import opened ZipEndLemmas
  import opened ZipCanonical
  import opened ZipBundle
  import opened ZipCompleteness
  import opened Inflate
  import opened MemberStream
  import R = ReleaseZip
  import opened StableSort

  /** A lawful code with one stream, of one byte, which decodes to `burst`. */
  function Code(burst: bytes): Deflate {
    Deflate(b => b == [0], b => false, b => if [0] <= b then burst else [])
  }

  lemma CodeIsLawful(burst: bytes)
    ensures Lawful(Code(burst))
  {
    var c := Code(burst);
    forall d: bytes, e: bytes | d <= e ensures c.output(d) <= c.output(e) {
      if [0] <= d {
        assert [0] <= e;
      }
    }
  }

  /** The member's region is its stream, right behind the local record. */
  lemma RegionOfOne(info: ZipInfo)
    requires CanonicalLocal(info) && info.headerOffset == 0
    ensures var file := OneMemberFile(info, [0]);
      && DataOffset(file, info) == Some(|LocalRecord(info)|)
      && Held(file, |LocalRecord(info)|, 1) == [0]
  {
    hide LocalRecord, CentralRecord, EndBytes, DataOffset, LocalFits;
    var file, record := OneMemberFile(info, [0]), LocalRecord(info);
    assert file[..|record|] == record && file[|record|..|record| + 1] == [0];
    DataFollowsRecord(file, info);
  }

  /** An accepted one-member bundle whose member is exactly what is declared, and is not read. */
  ghost predicate IsRefusedThoughExact(file: bytes, info: ZipInfo, codec: Deflate, pace: Pace, crc32: bytes -> nat) {
    && Lawful(codec)
    && Accepted(file, [info], None, None)
    && IsExact(file, info, codec, crc32)
    && StreamOf(file, info, codec, pace, crc32) == None
  }

  lemma AcceptedOne(info: ZipInfo)
    requires CanonicalCentral(info) && CanonicalLocal(info) && IsPlainName(info.filename)
    requires info.headerOffset == 0 && info.compressSize == 1
    requires !NeedsZip64(OneMemberGeometry(info, [0]))
    ensures Accepted(OneMemberFile(info, [0]), [info], None, None)
  {
    hide LocalRecord, CentralRecord, CanonicalCentral, CanonicalLocal, Accepted, IsPackerFile, IsPlainName,
      OneMemberFile;
    OneMemberLayout(info, [0]);
    PackedBundleVerifies(OneMemberFile(info, [0]), [info], OneMemberGeometry(info, [0]), None, None);
  }

  lemma ExactOne(info: ZipInfo, burst: bytes, crc32: bytes -> nat)
    requires CanonicalLocal(info) && info.headerOffset == 0 && info.compressSize == 1
    requires info.compressType == DEFLATED && info.fileSize == |burst| && info.crc == crc32(burst)
    ensures IsExact(OneMemberFile(info, [0]), info, Code(burst), crc32)
  {
    hide OneMemberFile, DataOffset, Held, CanonicalLocal, LocalRecord;
    RegionOfOne(info);
  }

  /**
   Any legal member that decodes to more than one call gives, from one byte: the bundle passes every
   structural check and its member is exact, but an eager decoder never gets to give all of it.
   */
  lemma ExactMemberRefused(info: ZipInfo, burst: bytes, pace: Pace, crc32: bytes -> nat)
    requires CanonicalCentral(info) && CanonicalLocal(info) && IsPlainName(info.filename)
    requires info.headerOffset == 0 && info.compressSize == 1 && !NeedsZip64(OneMemberGeometry(info, [0]))
    requires info.fileSize == |burst| > CHUNK && info.crc == crc32(burst) && Eager(pace)
    ensures IsRefusedThoughExact(OneMemberFile(info, [0]), info, Code(burst), pace, crc32)
  {
    assert info.compressType == DEFLATED;
    hide CanonicalCentral, CanonicalLocal, IsPlainName, OneMemberFile, Accepted, IsExact, StreamOf, Lawful, Eager, Code,
      NeedsZip64;
    CodeIsLawful(burst);
    AcceptedOne(info);
    ExactOne(info, burst, crc32);
    EagerRefusesLargeMembers(OneMemberFile(info, [0]), info, Code(burst), pace, crc32);
  }

  // ----- there is such a member -----

  /** `epic-continuum-root/z`. */
  const NAME: Text :=
    [0x65, 0x70, 0x69, 0x63, 0x2D, 0x63, 0x6F, 0x6E, 0x74, 0x69, 0x6E,
     0x75, 0x75, 0x6D, 0x2D, 0x72, 0x6F, 0x6F, 0x74, 0x2F, 0x7A]

  const ZEROS: ZipInfo := ZipInfo(
    NAME, 0, DEFLATED, 0, 1, CHUNK + 1, 0, 3, 20, 20, 0, 0x81A4_0000, [1980, 1, 1, 0, 0, 0], 0)

  lemma NameIsPlain()
    ensures Encodable(NAME) && Encode(NAME) == NAME && |NAME| == 21
    ensures ExpectedFlags(NAME) == 0 && IsPlainName(NAME)
  {
    hide Encode, Encodable;
    EncodeAscii(NAME);
    AsciiIsEncodable(NAME);
  }

  lemma ZerosShape()
    ensures CentralExtra(ZEROS) == [] && LocalExtra(ZEROS) == []
    ensures CentralRequired(ZEROS) == [] && LocalRequired(ZEROS) == []
    ensures CanonicalMetadata(ZEROS) && CanonicalVersions(ZEROS)
    ensures Encode(ZEROS.filename) == NAME
  {
    NameIsPlain();
    hide Encode;
  }

  lemma ZerosFit()
    ensures CanonicalCentral(ZEROS) && CanonicalLocal(ZEROS)
  {
    NameIsPlain();
    hide Encode, CentralExtra, LocalExtra, CanonicalMetadata, CanonicalVersions, CentralRequired, LocalRequired;
    ZerosShape();
    FormatsSpelled();
    Pow256Values();
  }

  lemma ZerosAreSmall()
    ensures |CentralRecord(ZEROS)| == 67 && |LocalRecord(ZEROS)| == 51
  {
    NameIsPlain();
    hide Pack, Encode;
    ZerosShape();
    CentralShape(ZEROS);
    LocalShape(ZEROS);
    HeaderWidths();
  }

  /** More than 1 MiB of one value, in a member that meets all these conditions. */
  lemma ZerosAreLegal()
    ensures CanonicalCentral(ZEROS) && CanonicalLocal(ZEROS) && IsPlainName(ZEROS.filename)
    ensures ZEROS.headerOffset == 0 && ZEROS.compressSize == 1 && ZEROS.fileSize == CHUNK + 1
    ensures !NeedsZip64(OneMemberGeometry(ZEROS, [0]))
  {
    hide CanonicalCentral, CanonicalLocal, LocalRecord, CentralRecord;
    ZerosAreSmall();
    ZerosFit();
    NameIsPlain();
  }

  /** The refusal of a concrete bundle: 1 MiB and one byte, at the pace that takes all it is handed. */
  lemma ZerosAreRefused(burst: bytes, pace: Pace, crc32: bytes -> nat)
    requires |burst| == CHUNK + 1 && Eager(pace) && crc32(burst) == 0
    ensures IsRefusedThoughExact(OneMemberFile(ZEROS, [0]), ZEROS, Code(burst), pace, crc32)
  {
    hide CanonicalCentral, CanonicalLocal, IsPlainName, OneMemberFile, NeedsZip64, IsRefusedThoughExact, Code, Eager;
    ZerosAreLegal();
    ExactMemberRefused(ZEROS, burst, pace, crc32);
  }

  // ----- the release archive -----

  function RecordGeometry(r: R.Record): Geometry {
    Geometry(|R.LocalPart(r)| + 1, |R.CentralPart(r)|, 1)
  }

  /** A release archive with one member of one packed byte. */
  function OneRecordFile(r: R.Record): bytes {
    R.LocalPart(r) + [0] + R.CentralPart(r) + Pack(END_RECORD, R.ReleaseEndValues(RecordGeometry(r)))
  }

  /** A deflated file of one packed byte under a name long enough to hide no locator. */
  predicate IsLegalRecord(r: R.Record) {
    && R.InRange(r) && R.Canonical(r)
    && r.compression == DEFLATED && r.offset == 0 && r.packedSize == 1
    && |r.name| >= 18 && r.name[|r.name| - 18] != 0x06 && !R.EndsInSlash(r.name)
  }

  lemma OneRecordEnds(r: R.Record)
    requires IsLegalRecord(r)
    ensures R.HasReleaseEnd(OneRecordFile(r), RecordGeometry(r))
  {
    R.PartWidths(r);
    hide Pack, Unpack;
    HeaderWidths();
    var file, g := OneRecordFile(r), RecordGeometry(r);
    R.ReleaseEndFits(g);
    var eocd := |file| - 22;
    assert file[eocd..] == Pack(END_RECORD, R.ReleaseEndValues(g));
    assert file[g.offset..eocd] == R.CentralPart(r);
    assert file[eocd - 18] == r.name[|r.name| - 18];
    if HasLocator(file, eocd) {
      LocatorSignatureBytes(file[eocd - 20..eocd][..4]);
    }
  }

  lemma OneRecordIsRelease(r: R.Record)
    requires IsLegalRecord(r)
    ensures R.IsReleaseFile(OneRecordFile(r), [r], RecordGeometry(r))
    ensures R.PackedData(OneRecordFile(r), r) == [0]
  {
    OneRecordEnds(r);
    R.PartWidths(r);
    hide Pack, R.HasReleaseEnd, R.InRange, R.Canonical, R.LocalPart, R.CentralPart, R.EndsInSlash;
    HeaderWidths();
    var file, g, local := OneRecordFile(r), RecordGeometry(r), R.LocalPart(r);
    assert [r][1..] == [] && [r][..0] == [];
    assert R.SortRecords([r]) == [r];
    assert file[..|local|] == local && file[|local|..|local| + 1] == [0];
    assert file[g.offset..g.offset + g.size] == R.CentralPart(r);
    assert R.CentralParts([r]) == R.CentralPart(r) + R.CentralParts([]) == R.CentralPart(r);
    assert R.RecordRegion(file, [r][1..], g.offset, g.offset);
  }

  lemma OneRecordStream(r: R.Record, burst: bytes, pace: Pace, crc32: bytes -> nat)
    requires IsLegalRecord(r) && r.size == |burst| && r.crc == crc32(burst)
    ensures R.StreamOk(R.Codec(Code(burst), pace, crc32), OneRecordFile(r), r)
  {
    OneRecordIsRelease(r);
    hide R.IsReleaseFile, R.InRange, R.Canonical, R.PackedData, OneRecordFile;
  }

  /** A faithful archive with one member, which is cut short. */
  ghost predicate IsRefusedThoughFaithful(file: bytes, p: R.Parsed, codec: R.Codec, r: R.Record, g: Geometry) {
    Lawful(codec.deflate) && R.Faithful(file, [p], codec, [r], g) && R.AnyCutShort(codec, file, [r])
  }

  lemma FaithfulButCutShort(file: bytes, p: R.Parsed, codec: R.Codec, r: R.Record, g: Geometry)
    requires Lawful(codec.deflate) && R.IsReleaseFile(file, [r], g) && R.Agrees(r, p)
    requires R.StreamOk(codec, file, r) && R.CutShort(codec, file, r)
    ensures IsRefusedThoughFaithful(file, p, codec, r, g)
  {
    hide R.IsReleaseFile, R.Agrees, R.StreamOk, R.CutShort, Lawful;
    assert r in [r];
  }

  /** Faithful in every respect, but an eager decoder cuts its only member short. */
  lemma FaithfulArchiveRefused(r: R.Record, p: R.Parsed, burst: bytes, pace: Pace, crc32: bytes -> nat)
    requires IsLegalRecord(r) && R.Agrees(r, p)
    requires r.size == |burst| > CHUNK && r.crc == crc32(burst) && Eager(pace)
    ensures IsRefusedThoughFaithful(
      OneRecordFile(r), p, R.Codec(Code(burst), pace, crc32), r, RecordGeometry(r))
  {
    CodeIsLawful(burst);
    OneRecordIsRelease(r);
    OneRecordStream(r, burst, pace, crc32);
    assert r.compression != STORED && r.packedSize <= CHUNK;
    hide *;
    var codec := R.Codec(Code(burst), pace, crc32);
    R.EagerCutsLargeRecords(codec, OneRecordFile(r), r);
    FaithfulButCutShort(OneRecordFile(r), p, codec, r, RecordGeometry(r));
  }

  const ZERO_RECORD: R.Record := R.Record(NAME, 0x314, 20, 0x800, DEFLATED, 0, 33, 0, 1, CHUNK + 1, 0, 0, 0)

  /** More than 1 MiB of one value is such a member, too. */
  lemma ZeroRecordIsLegal()
    ensures IsLegalRecord(ZERO_RECORD)
    ensures R.Agrees(ZERO_RECORD, R.Parsed(NAME, 0x800, DEFLATED, 0, 1, CHUNK + 1, 0, 20, [], []))
  {
    hide Encode, Encodable;
    NameIsPlain();
  }
}

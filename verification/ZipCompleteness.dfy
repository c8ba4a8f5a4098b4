/**
 When the packer's own layout is accepted. It is not always: without ZIP64 records, the last
 bytes of the central directory can read as a ZIP64 locator and lead the end scan astray.
 */
module ZipCompleteness {
  import opened Struct
  import opened Utf8
  import opened ZipFormat
  import opened ZipExtra
  import opened ZipPreflight
  import opened ZipEndLemmas
  import opened ZipEnvelope
  import opened ZipCanonical
  import opened ZipBundle

  /** A file the packer wrote: its layout, closed by the end records of the geometry. */
  ghost predicate IsPackerFile(file: bytes, infos: seq<ZipInfo>, g: Geometry) {
    && IsPackerLayout(file, infos, g)
    && g.offset + g.size <= |file|
    && file[g.offset + g.size..] == EndBytes(g)
    && (NeedsZip64(g) ==>
      Fits(ZIP64_END_RECORD, Zip64EndValues(g)) && Fits(ZIP64_LOCATOR, LocatorValues(g.offset + g.size)))
  }

  lemma {:induction false} RegionEndsOnce(file: bytes, ordered: seq<ZipInfo>, start: nat, end: nat, other: nat)
    requires LocalRegion(file, ordered, start, end) && LocalRegion(file, ordered, start, other)
    ensures end == other
  {
    hide LocalRecord;
    if ordered != [] {
      RegionEndsOnce(file, ordered[1..], start + |LocalRecord(ordered[0])| + ordered[0].compressSize, end, other);
    }
  }

  /**
   Completeness, exactly: a file the packer wrote within the limits is accepted if and only if
   it has ZIP64 end records or no locator signature where such a record would be.
   */
  lemma PackerFileAccepted(
    file: bytes, infos: seq<ZipInfo>, g: Geometry, maxEntries: Option<nat>, maxCentralBytes: Option<nat>)
    requires IsPackerFile(file, infos, g)
    requires WithinLimit(|infos|, maxEntries) && WithinLimit(g.size, maxCentralBytes)
    ensures 22 <= |file|
    ensures Accepted(file, infos, maxEntries, maxCentralBytes) <==> NeedsZip64(g) || !HasLocator(file, |file| - 22)
  {
    hide Accepted, LocalRegion, CentralBytes, SortByOffset, EndBytes, HasLocator, Fits, At;
    Zip64BytesSplit(file, g);
    BundleIsExact(file, infos, maxEntries, maxCentralBytes);
    if NeedsZip64(g) || !HasLocator(file, |file| - 22) {
      assert IsCanonicalBundle(file, infos, g);
    } else if Accepted(file, infos, maxEntries, maxCentralBytes) {
      var other :| IsCanonicalBundle(file, infos, other);
      Zip64BytesSplit(file, other);
      RegionEndsOnce(file, SortByOffset(infos), 0, g.offset, other.offset);
      assert false;
    }
  }

  /** Names the bundle's own rules allow under its 20-character root: no control characters. */
  predicate IsPlainName(name: Text) {
    |name| >= 20 && forall i :: 0 <= i < |name| ==> name[i] >= 0x20
  }

  lemma {:induction false} PlainNameBytes(name: Text)
    requires forall i :: 0 <= i < |name| ==> name[i] >= 0x20
    ensures forall b :: b in Encode(name) ==> b >= 0x20
  {
    if name != [] {
      assert forall b :: b in EncodePoint(name[0]) ==> b >= 0x20;
      PlainNameBytes(name[1..]);
    }
  }

  lemma LocatorSignatureBytes(b: bytes)
    requires |b| == 4 && Le(b) == ZIP64_LOCATOR_SIGNATURE
    ensures b[2] == 0x06 && b[3] == 0x07
  {
    var b0: int, b1: int, b2: int, b3: int := b[0], b[1], b[2], b[3];
    assert b[1..][1..] == b[2..] && b[2..][1..] == b[3..] && b[3..][1..] == [];
    assert Le(b[3..]) == b3;
    assert Le(b[2..]) == b2 + 256 * b3;
    assert Le(b[1..]) == b1 + 256 * (b2 + 256 * b3);
    assert Le(b) == b0 + 256 * (b1 + 256 * (b2 + 256 * b3));
  }

  lemma {:induction false} CentralEndsWith(infos: seq<ZipInfo>) returns (front: bytes)
    requires infos != []
    ensures CentralBytes(infos) == front + CentralRecord(infos[|infos| - 1])
  {
    hide CentralRecord;
    if |infos| == 1 {
      front := [];
      assert infos[1..] == [];
    } else {
      var rest := CentralEndsWith(infos[1..]);
      front := CentralRecord(infos[0]) + rest;
      assert infos[1..][|infos| - 2] == infos[|infos| - 1];
    }
  }

  /** A size-only ZIP64 extra field: 20 bytes, starting with its identifier and length. */
  lemma SizeExtraBytes(info: ZipInfo)
    requires !CentralZip64Required(info.headerOffset)
    ensures CentralExtra(info) == [] || (|CentralExtra(info)| == 20 && CentralExtra(info)[2] == 0x10)
  {
    if SizesNeedZip64(info.fileSize, info.compressSize) {
      var r1, r2 := Required(8, info.fileSize), Required(8, info.compressSize);
      assert CentralRequired(info) == [r1, r2];
      assert [r1, r2][1..] == [r2] && [r2][1..] == [];
      assert Payload([r2]) == ToLe(r2.value, 8) + Payload([]);
      assert Payload([r1, r2]) == ToLe(r1.value, 8) + Payload([r2]);
      assert ToLe(16, 2) == [16] + ToLe(0, 1);
    } else {
      assert CentralRequired(info) == [];
    }
  }

  lemma PlainRecordHasNoLocator(info: ZipInfo)
    requires IsPlainName(info.filename) && !CentralZip64Required(info.headerOffset)
    ensures var r := CentralRecord(info);
      |r| >= 20 && r[|r| - 18] != 0x06
  {
    hide Pack, CentralExtra, Encode, CentralValues;
    var r, name, extra := CentralRecord(info), Encode(info.filename), CentralExtra(info);
    SizeExtraBytes(info);
    PlainNameBytes(info.filename);
    CentralShape(info);
    if extra == [] {
      assert r[|r| - 18] == name[|name| - 18];
      assert name[|name| - 18] in name;
    } else {
      assert r[|r| - 18] == extra[2];
    }
  }

  /** The central directory of a packer file ends in a record that is no locator lookalike. */
  lemma LastRecord(file: bytes, infos: seq<ZipInfo>, g: Geometry) returns (record: bytes)
    requires IsPackerFile(file, infos, g) && !NeedsZip64(g)
    requires infos != [] && IsPlainName(infos[|infos| - 1].filename)
    ensures 20 <= |record| <= g.size && g.offset + g.size <= |file|
    ensures file[g.offset + g.size - |record|..g.offset + g.size] == record
    ensures record[|record| - 18] != 0x06
  {
    hide CentralRecord, CanonicalCentral, CanonicalLocal, EndBytes, SortByOffset, LocalRecord, LocalRegion,
      CentralBytes;
    var last := infos[|infos| - 1];
    SortByOffsetKeepsMembers(infos);
    assert last in infos;
    RegionHolds(file, SortByOffset(infos), 0, g.offset, last);
    PlainRecordHasNoLocator(last);
    var front := CentralEndsWith(infos);
    record := CentralRecord(last);
    var end := g.offset + g.size;
    assert file[g.offset..end] == front + record;
    assert file[end - |record|..end] == file[g.offset..end][|front|..];
  }

  /** Under plain names the packer's layout never looks like it has a locator it did not write. */
  lemma PlainNamesHaveNoLocator(file: bytes, infos: seq<ZipInfo>, g: Geometry)
    requires IsPackerFile(file, infos, g) && !NeedsZip64(g)
    requires infos != [] ==> IsPlainName(infos[|infos| - 1].filename)
    ensures 22 <= |file| && !HasLocator(file, |file| - 22)
  {
    hide CentralRecord, CanonicalCentral, CanonicalLocal, EndBytes, LocalRecord;
    Zip64BytesSplit(file, g);
    var eocd := |file| - 22;
    if infos != [] {
      var record := LastRecord(file, infos, g);
      assert file[eocd - 18] == record[|record| - 18];
      if HasLocator(file, eocd) {
        LocatorSignatureBytes(file[eocd - 20..eocd][..4]);
      }
    } else {
      assert SortByOffset(infos) == [];
      assert g.offset == 0 && g.size == 0;
    }
  }

  /** So every bundle the packer writes under plain names passes its own verification. */
  lemma PackedBundleVerifies(
    file: bytes, infos: seq<ZipInfo>, g: Geometry, maxEntries: Option<nat>, maxCentralBytes: Option<nat>)
    requires IsPackerFile(file, infos, g)
    requires infos != [] ==> IsPlainName(infos[|infos| - 1].filename)
    requires WithinLimit(|infos|, maxEntries) && WithinLimit(g.size, maxCentralBytes)
    ensures Accepted(file, infos, maxEntries, maxCentralBytes)
  {
    hide Accepted, IsPackerFile, HasLocator;
    PackerFileAccepted(file, infos, g, maxEntries, maxCentralBytes);
    if !NeedsZip64(g) {
      PlainNamesHaveNoLocator(file, infos, g);
    }
  }

  /** The layout with one member at the start of the file. */
  function OneMemberFile(info: ZipInfo, data: bytes): bytes {
    LocalRecord(info) + data + CentralRecord(info) + EndBytes(OneMemberGeometry(info, data))
  }

  function OneMemberGeometry(info: ZipInfo, data: bytes): Geometry {
    Geometry(|LocalRecord(info)| + |data|, |CentralRecord(info)|, 1)
  }

  lemma OneMemberLayout(info: ZipInfo, data: bytes)
    requires CanonicalCentral(info) && CanonicalLocal(info)
    requires info.headerOffset == 0 && info.compressSize == |data|
    requires !NeedsZip64(OneMemberGeometry(info, data))
    ensures IsPackerFile(OneMemberFile(info, data), [info], OneMemberGeometry(info, data))
  {
    hide CanonicalCentral, CanonicalLocal, LocalRecord, CentralRecord, EndBytes;
    var file, infos, g := OneMemberFile(info, data), [info], OneMemberGeometry(info, data);
    var local, central := LocalRecord(info), CentralRecord(info);
    assert infos[1..] == [] && infos[..0] == [];
    SortByOffsetKeepsMembers(infos);
    assert SortByOffset(infos)[0] in infos && SortByOffset(infos) == infos;
    assert CentralBytes(infos) == central + CentralBytes([]) == central;
    assert file == local + (data + central + EndBytes(g));
    assert file[..|local|] == local;
    assert file[g.offset..g.offset + g.size] == central;
    assert file[g.offset + g.size..] == EndBytes(g);
    assert LocalRegion(file, infos[1..], g.offset, g.offset);
  }

  /** Any such file is refused when the member's 20-byte name starts with the locator signature. */
  lemma LookalikeIsRefused(info: ZipInfo, data: bytes)
    requires CanonicalCentral(info) && CanonicalLocal(info) && CentralExtra(info) == []
    requires info.headerOffset == 0 && info.compressSize == |data|
    requires !NeedsZip64(OneMemberGeometry(info, data))
    requires |Encode(info.filename)| == 20 && Le(Encode(info.filename)[..4]) == ZIP64_LOCATOR_SIGNATURE
    ensures !Accepted(OneMemberFile(info, data), [info], None, None)
  {
    hide Accepted, EndBytes, IsPackerFile, LocalRecord, Pack, CentralExtra, CanonicalCentral, CanonicalLocal,
      CentralValues;
    var file, g := OneMemberFile(info, data), OneMemberGeometry(info, data);
    OneMemberLayout(info, data);
    Zip64BytesSplit(file, g);
    PackerFileAccepted(file, [info], g, None, None);
    var record, eocd := CentralRecord(info), |file| - 22;
    CentralShape(info);
    assert record[|record| - 20..] == Encode(info.filename);
    assert file[eocd - 20..eocd] == record[|record| - 20..];
  }

  /** The name `PK\x06\x07` with sixteen letters behind it: a legal ZIP member name. */
  const LOOKALIKE_NAME: Text :=
    [0x50, 0x4B, 0x06, 0x07, 0x61, 0x61, 0x61, 0x61, 0x61, 0x61,
     0x61, 0x61, 0x61, 0x61, 0x61, 0x61, 0x61, 0x61, 0x61, 0x61]

  /** A member with that name and the two bytes of an empty DEFLATE stream. */
  const LOOKALIKE: ZipInfo := ZipInfo(
    LOOKALIKE_NAME, 0, DEFLATED, 0, 2, 0, 0, 3, 20, 20, 0, 0x81A4_0000, [1980, 1, 1, 0, 0, 0], 0)

  lemma FormatsSpelled()
    ensures CENTRAL_HEADER == [4, 2, 2, 2, 2, 2, 2, 4, 4, 4, 2, 2, 2, 2, 2, 4, 4]
    ensures LOCAL_HEADER == [4, 2, 2, 2, 2, 2, 4, 4, 4, 2, 2]
  {
  }

  lemma LookalikeShape()
    ensures CentralExtra(LOOKALIKE) == [] && LocalExtra(LOOKALIKE) == []
    ensures CentralRequired(LOOKALIKE) == [] && LocalRequired(LOOKALIKE) == []
    ensures CanonicalMetadata(LOOKALIKE) && CanonicalVersions(LOOKALIKE)
    ensures Encode(LOOKALIKE.filename) == LOOKALIKE_NAME
  {
    hide Encode;
    EncodeAscii(LOOKALIKE_NAME);
    AsciiIsEncodable(LOOKALIKE_NAME);
  }

  lemma LookalikeFits()
    ensures CanonicalCentral(LOOKALIKE) && CanonicalLocal(LOOKALIKE)
  {
    hide Encode, CentralExtra, LocalExtra, CanonicalMetadata, CanonicalVersions, CentralRequired, LocalRequired;
    LookalikeShape();
    FormatsSpelled();
    Pow256Values();
  }

  lemma LookalikeIsSmall()
    ensures |CentralRecord(LOOKALIKE)| == 66 && |LocalRecord(LOOKALIKE)| == 50
  {
    hide Pack, Encode;
    LookalikeShape();
    CentralShape(LOOKALIKE);
    LocalShape(LOOKALIKE);
    HeaderWidths();
  }

  lemma LocatorSignature()
    ensures Le([0x50, 0x4B, 0x06, 0x07]) == ZIP64_LOCATOR_SIGNATURE
  {
    var b: bytes := [0x50, 0x4B, 0x06, 0x07];
    assert b[1..] == [0x4B, 0x06, 0x07] && b[2..] == [0x06, 0x07] && b[3..] == [0x07] && b[4..] == [];
    assert b[1..][1..] == b[2..] && b[2..][1..] == b[3..] && b[3..][1..] == b[4..];
    assert Le(b[3..]) == 7;
    assert Le(b[2..]) == 6 + 256 * 7;
    assert Le(b[1..]) == 0x4B + 256 * (6 + 256 * 7);
  }

  /** A concrete file that is the packer's layout in every byte, and that the preflight refuses. */
  lemma CompletenessFailsForLookalike()
    ensures IsPackerFile(OneMemberFile(LOOKALIKE, [3, 0]), [LOOKALIKE], OneMemberGeometry(LOOKALIKE, [3, 0]))
    ensures !Accepted(OneMemberFile(LOOKALIKE, [3, 0]), [LOOKALIKE], None, None)
  {
    hide Accepted, IsPackerFile, Encode, CanonicalCentral, CanonicalLocal, CentralExtra, LocalRecord, CentralRecord;
    LookalikeShape();
    LookalikeFits();
    LookalikeIsSmall();
    LocatorSignature();
    assert LOOKALIKE_NAME[..4] == [0x50, 0x4B, 0x06, 0x07];
    OneMemberLayout(LOOKALIKE, [3, 0]);
    LookalikeIsRefused(LOOKALIKE, [3, 0]);
  }
}

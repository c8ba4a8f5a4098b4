/** The bytes the packer writes for one member, and that the two per-record checks accept nothing else. */
module ZipCanonical {
  import opened Struct
  import opened Utf8
  import opened ZipFormat
  import opened ZipExtra
  import opened ZipEnvelope

  function CentralRequired(info: ZipInfo): seq<Required> {
    (if SizesNeedZip64(info.fileSize, info.compressSize)
     then [Required(8, info.fileSize), Required(8, info.compressSize)] else []) +
    (if CentralZip64Required(info.headerOffset) then [Required(8, info.headerOffset)] else [])
  }

  function LocalRequired(info: ZipInfo): seq<Required> {
    if LocalZip64Required(info.fileSize, info.compressSize)
    then [Required(8, info.fileSize), Required(8, info.compressSize)] else []
  }

  function CentralExtra(info: ZipInfo): bytes {
    CanonicalExtra(CentralRequired(info))
  }

  function LocalExtra(info: ZipInfo): bytes {
    CanonicalExtra(LocalRequired(info))
  }

  /** `version needed` of a member that uses ZIP64 sizes or not. */
  function Version(zip64: bool): byte {
    if zip64 then 45 else 20
  }

  function MemberVersion(info: ZipInfo): byte {
    Version(LocalZip64Required(info.fileSize, info.compressSize) || CentralUsesZip64(info))
  }

  function CentralValues(info: ZipInfo): seq<nat> {
    var sizes64 := SizesNeedZip64(info.fileSize, info.compressSize);
    [ CENTRAL_SIGNATURE, info.createSystem as int * 256 + info.createVersion, info.extractVersion,
      info.flagBits, info.compressType, 0, 33, info.crc,
      Saturated(sizes64, info.compressSize), Saturated(sizes64, info.fileSize),
      |Encode(info.filename)|, |CentralExtra(info)|, 0, 0, info.internalAttr, info.externalAttr,
      Saturated(CentralZip64Required(info.headerOffset), info.headerOffset) ]
  }

  function LocalValues(info: ZipInfo): seq<nat> {
    var local64 := LocalZip64Required(info.fileSize, info.compressSize);
    [ LOCAL_SIGNATURE, Version(local64), info.flagBits, info.compressType, 0, 33, info.crc,
      Saturated(local64, info.compressSize), Saturated(local64, info.fileSize),
      |Encode(info.filename)|, |LocalExtra(info)| ]
  }

  function CentralTail(info: ZipInfo): bytes {
    Encode(info.filename) + CentralExtra(info)
  }

  function LocalTail(info: ZipInfo): bytes {
    Encode(info.filename) + LocalExtra(info)
  }

  function CentralRecord(info: ZipInfo): bytes {
    Pack(CENTRAL_HEADER, CentralValues(info)) + CentralTail(info)
  }

  function LocalRecord(info: ZipInfo): bytes {
    Pack(LOCAL_HEADER, LocalValues(info)) + LocalTail(info)
  }

  /** What the packer fixes about every member, whatever its content. */
  ghost predicate CanonicalMetadata(info: ZipInfo) {
    && info.createSystem == 3
    && info.dateTime == [1980, 1, 1, 0, 0, 0]
    && info.volume == 0
    && info.internalAttr == 0
    && info.externalAttr % 0x1_0000 == 0
    && info.flagBits == ExpectedFlags(info.filename)
    && info.compressType == DEFLATED
    && Encodable(info.filename)
  }

  ghost predicate CanonicalVersions(info: ZipInfo) {
    info.createVersion as int == info.extractVersion == MemberVersion(info)
  }

  lemma CentralRequiredValues(v: seq<nat>, info: ZipInfo)
    requires |v| == 17 && v[13] == 0
    requires v[9] == Saturated(SizesNeedZip64(info.fileSize, info.compressSize), info.fileSize)
    requires v[8] == Saturated(SizesNeedZip64(info.fileSize, info.compressSize), info.compressSize)
    requires v[16] == Saturated(CentralZip64Required(info.headerOffset), info.headerOffset)
    ensures RequiredValues(v[9], v[8], info.fileSize, info.compressSize,
      Some(v[16]), Some(info.headerOffset), Some(v[13])) == CentralRequired(info)
  {
  }

  lemma LocalRequiredValues(v: seq<nat>, info: ZipInfo)
    requires |v| == 11
    requires v[8] == Saturated(LocalZip64Required(info.fileSize, info.compressSize), info.fileSize)
    requires v[7] == Saturated(LocalZip64Required(info.fileSize, info.compressSize), info.compressSize)
    ensures RequiredValues(v[8], v[7], info.fileSize, info.compressSize, None, None, None) == LocalRequired(info)
  {
  }

  lemma CentralRequiredSmall(info: ZipInfo)
    ensures |CentralRequired(info)| <= 3 && forall r :: r in CentralRequired(info) ==> r.width == 8
    ensures |LocalRequired(info)| <= 2 && forall r :: r in LocalRequired(info) ==> r.width == 8
  {
  }

  lemma EmptyConcatenation()
    ensures forall a: Errors, b: Errors {:trigger a + b} :: a + b == [] <==> a == [] && b == []
  {
  }

  /** The conditions under which no central diagnostic fires, with the implied ones dropped. */
  ghost predicate CentralClean(v: seq<nat>, variable: bytes, info: ZipInfo)
    requires |v| == 17 && |variable| == v[10] + v[11] + v[12]
  {
    && CanonicalMetadata(info)
    && DecodeFilename(variable[..v[10]], ExpectedFlags(info.filename)) == Some(info.filename)
    && ExtraErrorOf(variable[v[10]..v[10] + v[11]], CentralRequired(info)).None?
    && v[1] == info.createSystem as int * 256 + info.createVersion && v[2] == info.extractVersion
    && v[3] == info.flagBits && v[4] == info.compressType && v[5] == 0 && v[6] == 33 && v[7] == info.crc
    && v[8] == Saturated(SizesNeedZip64(info.fileSize, info.compressSize), info.compressSize)
    && v[9] == Saturated(SizesNeedZip64(info.fileSize, info.compressSize), info.fileSize)
    && v[12] == 0 && v[13] == 0 && v[14] == info.internalAttr && v[15] == info.externalAttr
    && v[16] == Saturated(CentralZip64Required(info.headerOffset), info.headerOffset)
  }

  lemma CentralProblemsClean(v: seq<nat>, variable: bytes, info: ZipInfo)
    requires |v| == 17 && |variable| == v[10] + v[11] + v[12]
    ensures CentralProblems(v, variable, Some(info)) == [] <==> CentralClean(v, variable, info)
  {
    hide DecodeFilename, ExtraErrorOf, RequiredValues, CentralRequired, When, Encode, Decode;
    EmptyConcatenation();
    var raw := variable[..v[10]];
    FilenameBytesUnique(raw, info.filename);
    if CentralProblems(v, variable, Some(info)) == [] || CentralClean(v, variable, info) {
      CentralRequiredValues(v, info);
    }
  }

  /** The central check of one record is silent exactly on the canonical record of its member. */
  lemma CentralProblemsExact(v: seq<nat>, variable: bytes, info: ZipInfo)
    requires |v| == 17 && |variable| == v[10] + v[11] + v[12] && v[0] == CENTRAL_SIGNATURE
    ensures CentralProblems(v, variable, Some(info)) == [] <==>
      && CanonicalMetadata(info) && Representable(CentralRequired(info))
      && v == CentralValues(info) && variable == CentralTail(info)
  {
    hide DecodeFilename, ExtraErrorOf, Encode, CanonicalExtra, Representable, CentralRequired, CentralProblems;
    var raw, extra := variable[..v[10]], variable[v[10]..v[10] + v[11]];
    CentralProblemsClean(v, variable, info);
    FilenameBytesUnique(raw, info.filename);
    CentralRequiredSmall(info);
    ExtraIsCanonical(extra, CentralRequired(info));
    if CentralClean(v, variable, info) {
      assert variable == raw + extra;
      assert v == CentralValues(info);
    }
    if v == CentralValues(info) && variable == CentralTail(info) {
      assert raw == Encode(info.filename) && extra == CentralExtra(info);
    }
  }

  ghost predicate LocalClean(v: seq<nat>, variable: bytes, info: ZipInfo)
    requires |v| == 11 && |variable| == v[9] + v[10]
  {
    var local64 := LocalZip64Required(info.fileSize, info.compressSize);
    && CanonicalVersions(info)
    && DecodeFilename(variable[..v[9]], ExpectedFlags(info.filename)) == Some(info.filename)
    && ExtraErrorOf(variable[v[9]..], LocalRequired(info)).None?
    && v[1] == Version(local64) && v[2] == info.flagBits && v[3] == info.compressType
    && v[4] == 0 && v[5] == 33 && v[6] == info.crc
    && v[7] == Saturated(local64, info.compressSize)
    && v[8] == Saturated(local64, info.fileSize)
  }

  lemma LocalProblemsClean(v: seq<nat>, variable: bytes, info: ZipInfo)
    requires |v| == 11 && |variable| == v[9] + v[10] && CanonicalMetadata(info)
    ensures LocalProblems(v, variable, info, CentralUsesZip64(info)) == [] <==> LocalClean(v, variable, info)
  {
    hide DecodeFilename, ExtraErrorOf, RequiredValues, LocalRequired, When, Encode, Decode;
    EmptyConcatenation();
    if LocalProblems(v, variable, info, CentralUsesZip64(info)) == [] || LocalClean(v, variable, info) {
      LocalRequiredValues(v, info);
    }
  }

  /** Likewise for the local check, which also settles the versions. */
  lemma LocalProblemsExact(v: seq<nat>, variable: bytes, info: ZipInfo)
    requires |v| == 11 && |variable| == v[9] + v[10] && v[0] == LOCAL_SIGNATURE
    requires CanonicalMetadata(info)
    ensures LocalProblems(v, variable, info, CentralUsesZip64(info)) == [] <==>
      && CanonicalVersions(info) && Representable(LocalRequired(info))
      && v == LocalValues(info) && variable == LocalTail(info)
  {
    hide DecodeFilename, ExtraErrorOf, Encode, CanonicalExtra, Representable, LocalRequired, LocalProblems;
    var raw, extra := variable[..v[9]], variable[v[9]..];
    LocalProblemsClean(v, variable, info);
    FilenameBytesUnique(raw, info.filename);
    CentralRequiredSmall(info);
    ExtraIsCanonical(extra, LocalRequired(info));
    if LocalClean(v, variable, info) {
      assert variable == raw + extra;
      assert v == LocalValues(info);
    }
    if v == LocalValues(info) && variable == LocalTail(info) {
      assert raw == Encode(info.filename) && extra == LocalExtra(info);
    }
  }
}

/**
 Verification of a root bundle from its bytes to its manifest (bundle.py, `_verify_root_bundle_impl`),
 put together from its parts, and what it establishes of every listed path.
 */
module Verification {
  import opened Struct
  import opened Utf8
  import opened BoundedErrors
  import opened ZipFormat
  import opened ZipPreflight
  import opened ZipEnvelope
  import opened ZipCanonical
  import opened ZipBundle
  import opened Inflate
  import opened MemberStream
  import opened ZipCompleteness
  import L = Limits
  import B = ManifestBinding

  /** What the reader is given: raw inflation and its pace, the checksum, and the digest as it is spelled. */
  datatype Tools = Tools(deflate: Deflate, pace: Pace, crc32: bytes -> nat, sha256: bytes -> bytes)

  /** The portable-name rules and the folding of names. */
  datatype Rules = Rules(safe: Text -> bool, fold: Text -> Text)

  /** What decoding a manifest gives, and what the checks on the manifest alone report. */
  datatype Decoding = Decoding(decoded: B.Decoded, reported: seq<nat>)

  // ----- reading the members -----

  function StreamFrom(data: Option<bytes>, tools: Tools): B.Stream {
    match data
    case None => B.Broken
    case Some(d) => B.Read(tools.sha256(d), |d|)
  }

  ghost function DataOf(file: bytes, info: ZipInfo, tools: Tools): Option<bytes>
    requires Lawful(tools.deflate)
  {
    StreamOf(file, info, tools.deflate, tools.pace, tools.crc32)
  }

  ghost predicate AreRead(file: bytes, infos: seq<ZipInfo>, tools: Tools, members: seq<B.Member>)
    requires Lawful(tools.deflate)
  {
    |members| == |infos| &&
    forall i :: 0 <= i < |infos| ==>
      members[i].info == infos[i] && members[i].stream == StreamFrom(DataOf(file, infos[i], tools), tools)
  }

  ghost function MembersOf(file: bytes, infos: seq<ZipInfo>, tools: Tools): (members: seq<B.Member>)
    requires Lawful(tools.deflate)
    ensures AreRead(file, infos, tools, members)
  {
    seq(|infos|, i requires 0 <= i < |infos| =>
      B.Member(infos[i], StreamFrom(DataOf(file, infos[i], tools), tools)))
  }

  method ReadMembers(file: bytes, infos: seq<ZipInfo>, tools: Tools) returns (members: seq<B.Member>)
    requires Lawful(tools.deflate)
    ensures members == MembersOf(file, infos, tools)
  {
    hide Lawful, StreamOf;
    members := [];
    for i := 0 to |infos|
      invariant AreRead(file, infos[..i], tools, members)
    {
      var r := ReadZipMemberExact(file, infos[i], tools.deflate, tools.pace, tools.crc32);
      var data := if r.Exact? then Some(r.data) else None;
      members := members + [B.Member(infos[i], StreamFrom(data, tools))];
    }
    assert infos[..|infos|] == infos;
  }

  ghost function ArchiveOf(file: bytes, infos: seq<ZipInfo>, tools: Tools, rules: Rules): B.Archive
    requires Lawful(tools.deflate)
  {
    B.Archive(MembersOf(file, infos, tools), rules.safe, rules.fold)
  }

  /** What the manifest member decodes to; nothing if there is not one such member, within its size limit and exact. */
  ghost function DecodingOf(
    file: bytes, infos: seq<ZipInfo>, tools: Tools, rules: Rules, decode: bytes -> Decoding): Decoding
    requires Lawful(tools.deflate)
  {
    var a := ArchiveOf(file, infos, tools, rules);
    if B.CountOf(a, B.MANIFEST) != 1 then Decoding(B.Failed, [])
    else
      assert B.MANIFEST in multiset(B.Names(a.members));
      var info := B.Lookup(a.members, B.MANIFEST).info;
      var data := DataOf(file, info, tools);
      if info.fileSize > B.MANIFEST_MAX_BYTES || data.None? then Decoding(B.Failed, []) else decode(data.value)
  }

  method DecodeManifest(
    file: bytes, infos: seq<ZipInfo>, tools: Tools, rules: Rules, decode: bytes -> Decoding, a: B.Archive)
    returns (d: Decoding)
    requires Lawful(tools.deflate) && a == ArchiveOf(file, infos, tools, rules)
    ensures d == DecodingOf(file, infos, tools, rules, decode)
  {
    hide Lawful, StreamOf, MembersOf;
    if B.CountOf(a, B.MANIFEST) != 1 {
      return Decoding(B.Failed, []);
    }
    assert B.MANIFEST in multiset(B.Names(a.members));
    var info := B.Lookup(a.members, B.MANIFEST).info;
    if info.fileSize > B.MANIFEST_MAX_BYTES {
      return Decoding(B.Failed, []);
    }
    var r := ReadZipMemberExact(file, info, tools.deflate, tools.pace, tools.crc32);
    if r.Fault? {
      return Decoding(B.Failed, []);
    }
    return decode(r.data);
  }

  // ----- the whole verification -----

  /** The layout, the sizes and the binding all hold. */
  ghost predicate IsVerified(
    file: bytes, infos: seq<ZipInfo>, c: L.Ceilings, tools: Tools, rules: Rules, decode: bytes -> Decoding)
    requires Lawful(tools.deflate)
  {
    && Accepted(file, infos, Some(c.maxEntries), Some(c.maxCentral))
    && L.WithinCeilings(c, PreflightOf(file, Some(c.maxEntries), Some(c.maxCentral)).value, infos)
    && var d := DecodingOf(file, infos, tools, rules, decode);
    B.BindingAccepted(ArchiveOf(file, infos, tools, rules), d.decoded, d.reported, c.maxEntries)
  }

  /**
   From the bytes of a file and its parsed directory to the verdict, without the budget and the
   embedded root. Members are read before their names are judged here; no verdict depends on it.
   */
  method VerifyRootBundle(
    file: bytes, infos: seq<ZipInfo>, c: L.Ceilings, tools: Tools, rules: Rules, decode: bytes -> Decoding)
    returns (ok: bool)
    requires Lawful(tools.deflate)
    ensures ok <==> IsVerified(file, infos, c, tools, rules, decode)
  {
    hide Lawful, EnvelopeErrors, PreflightOf, L.WithinCeilings, Contents, DecodingOf, B.BindingAccepted, MembersOf;
    var preflight := ReadBundleZipPreflight(file, Some(c.maxEntries), Some(c.maxCentral));
    if preflight.Err? {
      return false;
    }
    var errors := new Collector<EnvelopeError>(100);
    ZipEnvelopeErrors(file, infos, errors);
    EmptyMeansNothingReported(errors.maximum, errors.history);
    if errors.items != [] || preflight.value.observedEntryCount != |infos| {
      return false;
    }
    ok := L.CheckResources(c, preflight.value, infos);
    if !ok {
      return;
    }
    var members := ReadMembers(file, infos, tools);
    var a := B.Archive(members, rules.safe, rules.fold);
    var d := DecodeManifest(file, infos, tools, rules, decode, a);
    ok := B.VerifyManifestBinding(a, d.decoded, d.reported, c.maxEntries);
  }

  // ----- what a verified bundle holds -----

  /** Where the layout has the packed data of a member. */
  ghost predicate HoldsPacked(file: bytes, info: ZipInfo, packed: bytes) {
    var start := info.headerOffset + |LocalRecord(info)|;
    start + info.compressSize <= |file| && packed == file[start..start + info.compressSize]
  }

  /** The packed data of the member are one DEFLATE stream of the listed digest and size, under the listed mode. */
  ghost predicate HoldsListed(file: bytes, info: ZipInfo, tools: Tools, e: B.Entry, packed: bytes) {
    var data := tools.deflate.output(packed);
    && e.Entry? && info.filename == B.ROOT + e.path
    && HoldsPacked(file, info, packed)
    && tools.deflate.ends(packed)
    && e.sha == Some(tools.sha256(data)) && e.size == Some(|data|)
    && tools.crc32(data) == info.crc && |data| == info.fileSize
    && (e.mode.Some? ==> e.mode.value == info.externalAttr / 0x1_0000 % 0x1000)
  }

  /** A member whose bytes the reader returns has them where the layout puts them. */
  lemma ReadFromLayout(
    file: bytes, infos: seq<ZipInfo>, maxEntries: Option<nat>, maxCentralBytes: Option<nat>,
    info: ZipInfo, tools: Tools)
    requires Lawful(tools.deflate) && Accepted(file, infos, maxEntries, maxCentralBytes) && info in infos
    requires DataOf(file, info, tools).Some?
    ensures info.createSystem == 3
    ensures exists packed ::
      && HoldsPacked(file, info, packed) && tools.deflate.ends(packed)
      && DataOf(file, info, tools) == Some(tools.deflate.output(packed))
      && |tools.deflate.output(packed)| == info.fileSize && tools.crc32(tools.deflate.output(packed)) == info.crc
  {
    hide Accepted, LocalRecord, DataOffset, IsPackerLayout, HasCanonicalEnd, CutShort;
    assert !tools.deflate.ends([]);
    hide Lawful;
    ReadsTheLaidOutRegion(file, infos, maxEntries, maxCentralBytes, info);
    MembersAreDeflated(file, infos, maxEntries, maxCentralBytes, info);
    var start := info.headerOffset + |LocalRecord(info)|;
    var packed := Held(file, start, info.compressSize);
    assert packed != [];
    assert HoldsPacked(file, info, packed);
  }

  lemma MembersAreDeflated(
    file: bytes, infos: seq<ZipInfo>, maxEntries: Option<nat>, maxCentralBytes: Option<nat>, info: ZipInfo)
    requires Accepted(file, infos, maxEntries, maxCentralBytes) && info in infos
    ensures info.compressType == DEFLATED && info.createSystem == 3
  {
    hide Accepted, HasCanonicalEnd, LocalRegion, CentralBytes, SortByOffset, CentralFits;
    BundleIsExact(file, infos, maxEntries, maxCentralBytes);
    var g :| IsCanonicalBundle(file, infos, g);
    assert CanonicalCentral(info);
  }

  /**
   End to end: in a verified bundle with a manifest object, each listed path has a member whose packed
   data, where the layout puts them, are one stream of the listed digest, size and mode.
   */
  lemma ListedPathsAreHeld(
    file: bytes, infos: seq<ZipInfo>, c: L.Ceilings, tools: Tools, rules: Rules, decode: bytes -> Decoding, e: B.Entry)
    requires Lawful(tools.deflate) && IsVerified(file, infos, c, tools, rules, decode)
    requires DecodingOf(file, infos, tools, rules, decode).decoded.Object?
    requires e in DecodingOf(file, infos, tools, rules, decode).decoded.manifest.files
    ensures exists info, packed :: info in infos && HoldsListed(file, info, tools, e, packed)
  {
    hide Accepted, L.WithinCeilings, DecodingOf, MembersOf, HoldsPacked, Lawful, StreamOf, B.NamesFine;
    var a := ArchiveOf(file, infos, tools, rules);
    assert B.IsBound(a, e);
    BoundMember(a, e);
    var m := B.Lookup(a.members, B.ROOT + e.path);
    var i :| 0 <= i < |infos| && a.members[i] == m;
    assert m.info == infos[i] && infos[i] in infos;
    ReadFromLayout(file, infos, Some(c.maxEntries), Some(c.maxCentral), infos[i], tools);
    var packed :|
      && HoldsPacked(file, infos[i], packed) && tools.deflate.ends(packed)
      && DataOf(file, infos[i], tools) == Some(tools.deflate.output(packed))
      && |tools.deflate.output(packed)| == infos[i].fileSize
      && tools.crc32(tools.deflate.output(packed)) == infos[i].crc;
    assert HoldsListed(file, infos[i], tools, e, packed);
  }

  lemma BoundMember(a: B.Archive, e: B.Entry)
    requires B.IsBound(a, e)
    ensures B.ROOT + e.path in B.Names(a.members)
  {
    assert B.ROOT + e.path in multiset(B.Names(a.members));
  }

  ghost predicate IsNothingBut(file: bytes, infos: seq<ZipInfo>, g: Geometry) {
    && IsCanonicalBundle(file, infos, g)
    && file == LocalBytes(file, SortByOffset(infos), 0) + CentralBytes(infos) + EndBytes(g)
  }

  /**
   And there is nothing else: every member is the manifest's or a listed path's, and every byte a
   member's or a record's.
   */
  lemma NothingElseIsHeld(
    file: bytes, infos: seq<ZipInfo>, c: L.Ceilings, tools: Tools, rules: Rules, decode: bytes -> Decoding,
    info: ZipInfo)
    requires Lawful(tools.deflate) && IsVerified(file, infos, c, tools, rules, decode)
    requires DecodingOf(file, infos, tools, rules, decode).decoded.Object? && info in infos
    ensures info.filename == B.MANIFEST ||
      exists e :: e in DecodingOf(file, infos, tools, rules, decode).decoded.manifest.files &&
        e.Entry? && info.filename == B.ROOT + e.path
    ensures exists g :: IsNothingBut(file, infos, g)
  {
    hide Accepted, L.WithinCeilings, DecodingOf, MembersOf, Lawful, StreamOf, B.NamesFine, IsCanonicalBundle,
      LocalBytes,
      CentralBytes, EndBytes, B.AllBound;
    NoHiddenBytes(file, infos, Some(c.maxEntries), Some(c.maxCentral));
    var g :| IsCanonicalBundle(file, infos, g) &&
      file == LocalBytes(file, SortByOffset(infos), 0) + CentralBytes(infos) + EndBytes(g);
    assert IsNothingBut(file, infos, g);
    var a := ArchiveOf(file, infos, tools, rules);
    var m := DecodingOf(file, infos, tools, rules, decode).decoded.manifest;
    B.MembersAreAccountedFor(a, m);
    var i :| 0 <= i < |infos| && infos[i] == info;
    assert B.Names(a.members)[i] == info.filename;
    assert info.filename in B.SetOf(B.Names(a.members));
    if info.filename != B.MANIFEST {
      var paths := B.Paths(m.files);
      assert info.filename in B.Prefixed(paths);
      var j :| 0 <= j < |paths| && B.Prefixed(paths)[j] == info.filename;
      EntriesBound(a, m);
      assert m.files[j] in m.files;
    }
  }

  lemma EntriesBound(a: B.Archive, m: B.Manifest)
    requires B.AllBound(a, m.files)
    ensures forall e :: e in m.files ==> e.Entry?
  {
    hide B.IsUnsafe, B.Lookup;
  }

  /**
   The way back: a file the packer wrote, under plain names and the ceilings derived from it, is
   verified whenever the binding accepts what its members decode to.
   */
  lemma PackedBundleIsVerified(
    file: bytes, infos: seq<ZipInfo>, g: Geometry, c: L.Ceilings, tools: Tools, rules: Rules, decode: bytes -> Decoding)
    requires Lawful(tools.deflate) && IsPackerFile(file, infos, g)
    requires infos != [] ==> IsPlainName(infos[|infos| - 1].filename)
    requires forall i :: i in infos ==> i.compressSize <= L.CompressBound(i.fileSize)
    requires L.AreDerived(c, infos, g.size)
    requires var d := DecodingOf(file, infos, tools, rules, decode);
      B.BindingAccepted(ArchiveOf(file, infos, tools, rules), d.decoded, d.reported, c.maxEntries)
    ensures IsVerified(file, infos, c, tools, rules, decode)
  {
    hide Accepted, DecodingOf, B.BindingAccepted, Lawful, HasCanonicalEnd, L.WithinCeilings, PreflightOf, IsPlainName,
      L.CompressBound, LocalRegion, CentralBytes, CanonicalCentral, CanonicalLocal, EndBytes;
    PackedBundleVerifies(file, infos, g, Some(c.maxEntries), Some(c.maxCentral));
    BundleIsExact(file, infos, Some(c.maxEntries), Some(c.maxCentral));
    var h :| IsCanonicalBundle(file, infos, h);
    L.DerivedCeilingsSuffice(file, infos, h, c);
  }
}

/** The end-record check accepts exactly the canonical end records. */
module ZipEndLemmas {
  import opened Struct
  import opened Utf8
  import opened ZipFormat
  import opened ZipPreflight

  /** `b` is the packed form of in-range values. */
  ghost predicate IsPacked(f: Format, b: bytes, v: seq<nat>) {
    Fits(f, v) && b == Pack(f, v)
  }

  lemma FirstField(f: Format, b: bytes)
    requires f != [] && |b| == Width(f)
    ensures Unpack(f, b)[0] == Le(b[..f[0]])
  {
  }

  lemma EndValuesFit(g: Geometry)
    ensures Fits(END_RECORD, EndValues(g))
  {
    Pow256Values();
  }

  lemma ZeroPair(b: bytes)
    requires |b| == 2 && Le(b) == 0
    ensures b == [0, 0]
  {
    ToLeOfLe(b);
    assert ToLe(0, 2) == [0] + ToLe(0, 1) && ToLe(0, 1) == [0] + ToLe(0, 0);
  }

  /** The terminal end record of a file is found again in the tail that is searched for it. */
  lemma TerminalRecord(record: bytes, v: seq<nat>)
    requires |record| == 22 && Width(END_RECORD) == 22 && IsPacked(END_RECORD, record, v)
    requires v[0] == END_SIGNATURE && v[7] == 0
    ensures Le(record[..4]) == END_SIGNATURE && record[20..] == [0, 0]
    ensures Unpack(END_RECORD, record) == v
  {
    hide Pack, Width;
    UnpackPack(END_RECORD, v);
    FirstField(END_RECORD, record);
    TerminalComment(record);
    ZeroPair(record[20..]);
  }

  /** The terminal end record of a file is found again in the tail that is searched for it. */
  lemma TerminalRecordIsFound(file: bytes, v: seq<nat>)
    requires 22 <= |file| && Width(END_RECORD) == 22 && IsPacked(END_RECORD, file[|file| - 22..], v)
    requires v[0] == END_SIGNATURE && v[7] == 0
    ensures ReadEnd(file) == DecodeEnd(file, |file| - 22, v)
  {
    hide LastCandidate, DecodeEnd, Pack, Unpack, Le, Width;
    var start := TailStart(file);
    var tail := file[start..];
    var record := file[|file| - 22..];
    var at := |tail| - 22;
    TerminalRecord(record, v);
    assert tail[at..at + 22] == record;
    assert tail[at..at + 4] == record[..4];
    assert tail[|tail| - 2..] == record[20..];
    assert HasTerminalRecord(tail);
    assert EndFields(tail, at) == Unpack(END_RECORD, record);
  }

  lemma AcceptedEndRecord(file: bytes) returns (v: seq<nat>)
    requires ReadEnd(file).Ok?
    ensures 22 <= |file| && Width(END_RECORD) == 22
    ensures |v| == 8 && ReadEnd(file) == DecodeEnd(file, |file| - 22, v)
    ensures v[0] == END_SIGNATURE && v[7] == 0
    ensures IsPacked(END_RECORD, file[|file| - 22..], v)
  {
    hide LastCandidate, Pack, Unpack, DecodeZip64End, Width, Le;
    HeaderWidths();
    var start := TailStart(file);
    var tail := file[start..];
    var relative := EndOffset(tail);
    v := EndFields(tail, relative);
    var record := tail[relative..relative + 22];
    assert record == file[|file| - 22..];
    PackUnpack(END_RECORD, record);
    FirstField(END_RECORD, record);
    assert record[..4] == tail[relative..relative + 4];
  }

  lemma Zip64BytesSplit(file: bytes, g: Geometry)
    ensures |Pack(END_RECORD, EndValues(g))| == 22
    ensures |Pack(ZIP64_END_RECORD, Zip64EndValues(g))| == 56
    ensures |Pack(ZIP64_LOCATOR, LocatorValues(g.offset + g.size))| == 20
    ensures |EndBytes(g)| == if NeedsZip64(g) then 98 else 22
  {
    HeaderWidths();
  }

  lemma Zip64FieldValues(file: bytes, v: seq<nat>, g: Geometry) returns (l: seq<nat>, z: seq<nat>)
    requires 22 <= |file| && |v| == 8 && HasLocator(file, |file| - 22)
    requires DecodeZip64End(file, |file| - 22, v) == Ok(g)
    ensures g.offset + g.size + 98 == |file| && NeedsZip64(g)
    ensures Width(ZIP64_END_RECORD) == 56 && Width(ZIP64_LOCATOR) == 20
    ensures l == Unpack(ZIP64_LOCATOR, file[|file| - 42..|file| - 22])
    ensures z == Unpack(ZIP64_END_RECORD, file[|file| - 98..|file| - 42])
    ensures l[1] == 0 && l[2] == g.offset + g.size && l[3] == 1
    ensures z[0] == ZIP64_END_SIGNATURE && z[1] == 44 && z[2] == z[3] == 45 && z[4] == z[5] == 0
    ensures z[6] == z[7] == g.declared && z[8] == g.size && z[9] == g.offset
    ensures v[3] == v[4] == Min(g.declared, UINT16_MAX)
    ensures v[5] == Min(g.size, UINT32_MAX) && v[6] == Min(g.offset, UINT32_MAX)
  {
    HeaderWidths();
    l := Unpack(ZIP64_LOCATOR, file[|file| - 42..|file| - 22]);
    z := Unpack(ZIP64_END_RECORD, file[l[2]..l[2] + 56]);
  }

  lemma AcceptedZip64Record(file: bytes, v: seq<nat>, g: Geometry)
    requires 22 <= |file| && |v| == 8 && HasLocator(file, |file| - 22)
    requires v[0] == END_SIGNATURE && v[1] == 0 && v[2] == 0 && v[7] == 0
    requires DecodeZip64End(file, |file| - 22, v) == Ok(g)
    ensures g.offset + g.size + 98 == |file|
    ensures IsPacked(ZIP64_LOCATOR, file[|file| - 42..|file| - 22], LocatorValues(g.offset + g.size))
    ensures IsPacked(ZIP64_END_RECORD, file[|file| - 98..|file| - 42], Zip64EndValues(g))
    ensures NeedsZip64(g) && v == EndValues(g)
  {
    hide DecodeZip64End, EndBytes, Pack, Width;
    var l, z := Zip64FieldValues(file, v, g);
    var locator, record := file[|file| - 42..|file| - 22], file[|file| - 98..|file| - 42];
    FirstField(ZIP64_LOCATOR, locator);
    assert Le(locator[..4]) == ZIP64_LOCATOR_SIGNATURE;
    PackUnpack(ZIP64_LOCATOR, locator);
    PackUnpack(ZIP64_END_RECORD, record);
    assert l == LocatorValues(g.offset + g.size);
    assert z == Zip64EndValues(g);
  }

  lemma JoinTail(file: bytes, at: nat)
    requires at + 98 == |file|
    ensures file[at..] == file[at..at + 56] + file[at + 56..at + 76] + file[at + 76..]
  {
  }

  lemma AcceptedZip64End(file: bytes, v: seq<nat>, g: Geometry)
    requires 22 <= |file| && |v| == 8 && HasLocator(file, |file| - 22)
    requires v[0] == END_SIGNATURE && v[1] == 0 && v[2] == 0 && v[7] == 0
    requires IsPacked(END_RECORD, file[|file| - 22..], v)
    requires DecodeZip64End(file, |file| - 22, v) == Ok(g)
    ensures HasCanonicalEnd(file, g)
  {
    hide Pack, DecodeZip64End;
    AcceptedZip64Record(file, v, g);
    JoinTail(file, g.offset + g.size);
  }

  /** An accepted end: the file ends in exactly the bytes the packer would have written. */
  lemma AcceptedEnd(file: bytes)
    requires ReadEnd(file).Ok?
    ensures HasCanonicalEnd(file, ReadEnd(file).value)
  {
    hide Pack, DecodeZip64End, Width, ReadEnd;
    var v := AcceptedEndRecord(file);
    var g := ReadEnd(file).value;
    if HasLocator(file, |file| - 22) {
      AcceptedZip64End(file, v, g);
    } else {
      Pow256Values();
      Zip64BytesSplit(file, g);
      assert v[4] < Pow256(END_RECORD[4]) && END_RECORD[4] == 2;
      assert v == EndValues(g);
    }
  }

  lemma CanonicalZip64Parts(file: bytes, g: Geometry)
    requires HasCanonicalEnd(file, g) && NeedsZip64(g)
    ensures g.offset + g.size + 98 == |file|
    ensures IsPacked(ZIP64_LOCATOR, file[|file| - 42..|file| - 22], LocatorValues(g.offset + g.size))
    ensures IsPacked(ZIP64_END_RECORD, file[|file| - 98..|file| - 42], Zip64EndValues(g))
  {
    hide Pack;
    Zip64BytesSplit(file, g);
    var boundary := g.offset + g.size;
    var end := file[boundary..];
    assert end[..56] == Pack(ZIP64_END_RECORD, Zip64EndValues(g));
    assert end[56..76] == Pack(ZIP64_LOCATOR, LocatorValues(boundary));
    SliceOfSuffix(file, boundary, 0, 56);
    SliceOfSuffix(file, boundary, 56, 76);
  }

  lemma CanonicalZip64End(file: bytes, g: Geometry)
    requires HasCanonicalEnd(file, g) && NeedsZip64(g)
    ensures HasLocator(file, |file| - 22)
    ensures DecodeZip64End(file, |file| - 22, EndValues(g)) == Ok(g)
  {
    hide Pack, Width, EndBytes;
    HeaderWidths();
    CanonicalZip64Parts(file, g);
    var locator := file[|file| - 42..|file| - 22];
    UnpackPack(ZIP64_END_RECORD, Zip64EndValues(g));
    UnpackPack(ZIP64_LOCATOR, LocatorValues(g.offset + g.size));
    FirstField(ZIP64_LOCATOR, locator);
    assert ReadExactAt(file, |file| - 42, 20) == Some(locator);
  }

  lemma CanonicalTerminal(file: bytes, g: Geometry)
    requires HasCanonicalEnd(file, g)
    ensures |file| == g.offset + g.size + if NeedsZip64(g) then 98 else 22
    ensures file[|file| - 22..] == Pack(END_RECORD, EndValues(g))
  {
    hide Pack, Width;
    Zip64BytesSplit(file, g);
    var end := file[g.offset + g.size..];
    assert end[|end| - 22..] == Pack(END_RECORD, EndValues(g));
    assert file[|file| - 22..] == end[|end| - 22..];
  }

  lemma CanonicalEndIsAccepted(file: bytes, g: Geometry)
    requires HasCanonicalEnd(file, g)
    ensures ReadEnd(file) == Ok(g)
  {
    hide Pack, Width, DecodeZip64End, ReadEnd;
    HeaderWidths();
    EndValuesFit(g);
    CanonicalTerminal(file, g);
    TerminalRecordIsFound(file, EndValues(g));
    if NeedsZip64(g) {
      CanonicalZip64End(file, g);
    }
  }

  /** The end-record check is exact: it accepts a geometry if and only if the file ends canonically for it. */
  lemma EndIsExact(file: bytes, g: Geometry)
    ensures ReadEnd(file) == Ok(g) <==> HasCanonicalEnd(file, g)
  {
    if ReadEnd(file) == Ok(g) {
      AcceptedEnd(file);
    }
    if HasCanonicalEnd(file, g) {
      CanonicalEndIsAccepted(file, g);
    }
  }
}

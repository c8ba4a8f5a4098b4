/**
 Reading one bundle member to its exact end (bundle.py, `_read_zip_member_exact`): what is accepted
 is the whole declared region, with nothing behind the end of its DEFLATE stream.
 */
module MemberStream {
  import opened Struct
  import opened Utf8
  import opened ZipFormat
  import opened ZipExtra
  import opened ZipPreflight
  import opened ZipEnvelope
  import opened ZipEndLemmas
  import opened ZipCanonical
  import opened ZipBundle
  import opened Inflate

  // ----- one member -----

  datatype StreamFault =
    | SeekFailed | BadLocalHeader | DataTruncated | TrailingData | Stalled | NotTerminated
    | MethodNotSupported | SizeExceeded | DecompressionFailed | SizeMismatch | CrcMismatch

  datatype MemberResult = Exact(data: bytes) | Fault(fault: StreamFault)

  /** Where the member's data start, from the two lengths in its local header. */
  function DataOffset(file: bytes, info: ZipInfo): Option<nat> {
    var header := ReadExactAt(file, info.headerOffset, 30);
    if header.None? || Le(header.value[..4]) != LOCAL_SIGNATURE then None
    else Some(info.headerOffset + 30 + Le(header.value[26..28]) + Le(header.value[28..30]))
  }

  /** The data of a member whose declared region is all there and, if deflated, is one complete stream. */
  ghost function ExactData(file: bytes, info: ZipInfo, codec: Deflate): Option<bytes> {
    var start := DataOffset(file, info);
    if start.None? || |Held(file, start.value, info.compressSize)| != info.compressSize then None
    else
      var region := Held(file, start.value, info.compressSize);
      if info.compressType == STORED then Some(region)
      else if info.compressType == DEFLATED && codec.ends(region) then Some(codec.output(region))
      else None
  }

  /** A member that is exactly what its parsed entry declares. */
  ghost predicate IsExact(file: bytes, info: ZipInfo, codec: Deflate, crc32: bytes -> nat) {
    var data := ExactData(file, info, codec);
    data.Some? && |data.value| == info.fileSize && crc32(data.value) == info.crc
  }

  /** The inner loop: one chunk, with what `decompress` leaves of it fed back until nothing is left. */
  method InflateChunk(z: Inflater, chunk: bytes, declared: nat, before: bytes, ghost region: bytes, ghost s: Progress)
    returns (fault: Option<StreamFault>, data: bytes, ghost t: Progress)
    requires Lawful(z.codec) && !z.eof && chunk != [] && |before| <= declared
    requires s.at < s.end <= |region| && chunk == region[s.at..s.end]
    requires InStep(z, region, s, before)
    modifies z
    ensures fault.None? ==>
      && t.at == s.end && t.end == Min(s.end + CHUNK, |region|)
      && InStep(z, region, t, data) && |data| <= declared
    ensures IsGood(z.codec, region, declared) ==>
      && fault.None? && (z.eof <==> t.at == |region| && !LeavesSome(z, EACH_CALL, region, t))
      && (LeavesSome(z, EACH_CALL, region, t) <==> old(LeavesSome(z, EACH_CALL, region, s)))
  {
    hide Lawful, AfterCall, TakesTooSoon, LeavesOutput, Taken;
    fault, data, t := None, before, s;
    var pending := chunk;
    while pending != []
      invariant s.at <= t.at <= s.end && pending == region[t.at..s.end]
      invariant t.end == if pending == [] then Min(s.end + CHUNK, |region|) else s.end
      invariant InStep(z, region, t, data) && |data| <= declared
      invariant z.eof ==> pending == []
      invariant IsGood(z.codec, region, declared) ==>
        && (z.eof ==> t.at == |region|)
        && (LeavesSome(z, EACH_CALL, region, t) <==> old(LeavesSome(z, EACH_CALL, region, s)))
      decreases |pending| + (declared - |data|)
    {
      ghost var was := t;
      var failed, output, tail, unused := z.Decompress(pending, CHUNK);
      t := AfterCall(z.codec, z.pace, EACH_CALL, region, was);
      StepData(z.codec, z.pace, EACH_CALL, region, was, data);
      if z.codec.ends(region) {
        GoodCall(z.codec, z.pace, EACH_CALL, region, was);
      }
      if failed {
        return Some(DecompressionFailed), data, t;
      }
      if |data| + |output| > declared {
        return Some(SizeExceeded), data, t;
      }
      data := data + output;
      if unused != [] {
        return Some(TrailingData), data, t;
      }
      if tail != [] && |tail| == |pending| && output == [] {
        return Some(Stalled), data, t;
      }
      pending := tail;
    }
    Finished(z, EACH_CALL, region, t);
  }

  /** The outer loop over the chunks of a region of `size` bytes, of which `held` can be read. */
  method InflateRegion(held: bytes, size: nat, declared: nat, z: Inflater)
    returns (fault: Option<StreamFault>, data: bytes)
    requires Lawful(z.codec) && z.Valid() && z.fed == [] && z.given == 0 && !z.eof && |held| <= size
    modifies z
    ensures fault.None? <==>
      && |held| == size && IsGood(z.codec, held, declared)
      && !TakesTooSoon(z.codec, z.pace, EACH_CALL, held, Start(held))
    ensures fault.None? ==> data == z.codec.output(held)
  {
    assert !z.codec.ends([]);
    hide Lawful, TakesTooSoon, AfterCall;
    fault, data := None, [];
    var remaining := size;
    ghost var t := Start(held);
    var position := 0;
    while remaining > 0
      invariant position == t.at && remaining == size - position && t.end == Min(position + CHUNK, |held|)
      invariant InStep(z, held, t, data) && |data| <= declared
      invariant fault.None?
      invariant IsGood(z.codec, held, declared) ==>
        && (z.eof <==> t.at == |held| && !LeavesSome(z, EACH_CALL, held, t))
        && (LeavesSome(z, EACH_CALL, held, t) <==> old(LeavesSome(z, EACH_CALL, held, Start(held))))
    {
      var chunk := ReadUpTo(held, position, Min(CHUNK, remaining));
      if chunk == [] {
        return Some(DataTruncated), data;
      }
      remaining := remaining - |chunk|;
      if z.eof {
        return Some(TrailingData), data;
      }
      fault, data, t := InflateChunk(z, chunk, declared, data, held, t);
      if fault.Some? {
        return;
      }
      position := position + |chunk|;
      if z.eof && remaining > 0 {
        return Some(TrailingData), data;
      }
    }
    if !z.eof {
      return Some(NotTerminated), data;
    }
    assert held[..|held|] == held;
  }

  /** Stored members: the chunks themselves are the output. */
  method CopyRegion(held: bytes, size: nat, declared: nat) returns (fault: Option<StreamFault>, data: bytes)
    requires |held| <= size
    ensures fault.None? <==> |held| == size <= declared
    ensures fault.None? ==> data == held
  {
    fault, data := None, [];
    var position, remaining := 0, size;
    while remaining > 0
      invariant remaining == size - position && position <= |held| && data == held[..position] && |data| <= declared
      invariant fault.None?
    {
      var chunk := ReadUpTo(held, position, Min(CHUNK, remaining));
      if chunk == [] {
        return Some(DataTruncated), data;
      }
      remaining := remaining - |chunk|;
      if |data| + |chunk| > declared {
        return Some(SizeExceeded), data;
      }
      data := data + chunk;
      position := position + |chunk|;
    }
  }

  /** The inflater takes the last byte of this deflated member before all its output was asked for. */
  ghost predicate CutShort(file: bytes, info: ZipInfo, codec: Deflate, pace: Pace)
    requires Lawful(codec)
  {
    info.compressType == DEFLATED && DataOffset(file, info).Some? &&
    var region := Held(file, DataOffset(file, info).value, info.compressSize);
    TakesTooSoon(codec, pace, EACH_CALL, region, Start(region))
  }

  /** What the reader returns: the data of an exact member, unless it is cut short. */
  ghost function StreamOf(file: bytes, info: ZipInfo, codec: Deflate, pace: Pace, crc32: bytes -> nat): Option<bytes>
    requires Lawful(codec)
  {
    if IsExact(file, info, codec, crc32) && !CutShort(file, info, codec, pace) then ExactData(file, info, codec)
    else None
  }

  /**
   `_read_zip_member_exact`. A member is accepted exactly if its declared region is all there, is one
   complete stream to its last byte and decodes to the declared size and checksum, and the inflater
   does not take that last byte before all output was asked for.
   */
  method ReadZipMemberExact(file: bytes, info: ZipInfo, codec: Deflate, pace: Pace, crc32: bytes -> nat)
    returns (r: MemberResult)
    requires Lawful(codec)
    ensures r.Exact? <==> IsExact(file, info, codec, crc32) && !CutShort(file, info, codec, pace)
    ensures StreamOf(file, info, codec, pace, crc32) == if r.Exact? then Some(r.data) else None
  {
    hide Lawful, TakesTooSoon, Le;
    var header := ReadExactAt(file, info.headerOffset, 30);
    if header.None? {
      return Fault(SeekFailed);
    }
    if Le(header.value[..4]) != LOCAL_SIGNATURE {
      return Fault(BadLocalHeader);
    }
    var start := info.headerOffset + 30 + Le(header.value[26..28]) + Le(header.value[28..30]);
    var held := Held(file, start, info.compressSize);
    var fault: Option<StreamFault>, data: bytes;
    if info.compressType == STORED {
      fault, data := CopyRegion(held, info.compressSize, info.fileSize);
    } else if info.compressType == DEFLATED {
      var z := new Inflater(codec, pace);
      fault, data := InflateRegion(held, info.compressSize, info.fileSize, z);
    } else {
      return Fault(MethodNotSupported);
    }
    if fault.Some? {
      return Fault(fault.value);
    }
    if |data| != info.fileSize {
      return Fault(SizeMismatch);
    }
    if crc32(data) != info.crc {
      return Fault(CrcMismatch);
    }
    return Exact(data);
  }

  // ----- which exact members are refused -----

  lemma ExactRegion(file: bytes, info: ZipInfo, codec: Deflate, crc32: bytes -> nat)
    requires IsExact(file, info, codec, crc32) && info.compressType == DEFLATED
    ensures DataOffset(file, info).Some?
    ensures var region := Held(file, DataOffset(file, info).value, info.compressSize);
      |region| == info.compressSize && codec.ends(region) && |codec.output(region)| == info.fileSize
  {
    hide DataOffset;
  }

  /** An exact member is read at any pace if it is stored, or no larger than what one call gives. */
  lemma SmallMembersAreRead(file: bytes, info: ZipInfo, codec: Deflate, pace: Pace, crc32: bytes -> nat)
    requires Lawful(codec) && IsExact(file, info, codec, crc32)
    requires info.compressType == STORED || info.fileSize <= CHUNK
    ensures StreamOf(file, info, codec, pace, crc32) == ExactData(file, info, codec) != None
  {
    hide Lawful, DataOffset, TakesTooSoon;
    if info.compressType == DEFLATED {
      ExactRegion(file, info, codec, crc32);
      var region := Held(file, DataOffset(file, info).value, info.compressSize);
      AtStart(codec, region);
      SmallOutputIsFinished(codec, pace, EACH_CALL, region, Start(region));
    }
  }

  lemma AtStart(codec: Deflate, region: bytes)
    ensures IsAt(codec, region, Start(region))
  {
  }

  /**
   An eager decoder refuses an exact deflated member whose compressed data are one chunk exactly if
   it is larger than what one call gives: over 1 MiB of data that compress to 1 MiB or less.
   */
  lemma EagerRefusesLargeMembers(file: bytes, info: ZipInfo, codec: Deflate, pace: Pace, crc32: bytes -> nat)
    requires Lawful(codec) && Eager(pace) && IsExact(file, info, codec, crc32)
    requires info.compressType == DEFLATED && info.compressSize <= CHUNK
    ensures StreamOf(file, info, codec, pace, crc32) == None <==> info.fileSize > CHUNK
  {
    hide Lawful, DataOffset, TakesTooSoon, Eager;
    ExactRegion(file, info, codec, crc32);
    EagerOnOneChunk(codec, pace, EACH_CALL, Held(file, DataOffset(file, info).value, info.compressSize));
  }

  // ----- members of an accepted bundle -----

  lemma LocalHeaderParts(front: bytes, lengths: bytes)
    requires |front| == 26 && |lengths| == 4
    ensures Width(LOCAL_HEADER) == 30 && Width(H(2)) == 4
    ensures Unpack(LOCAL_HEADER, front + lengths)[9..11] == Unpack(H(2), lengths)
  {
    hide Unpack, Width, Run;
    HeaderWidths();
    RunWidths();
    var f := I(1) + H(5) + I(3);
    WidthAppend(I(1), H(5));
    WidthAppend(I(1) + H(5), I(3));
    UnpackAppend(f, H(2), front, lengths);
  }

  lemma TwoShorts(b: bytes)
    requires |b| == 4
    ensures Width(H(2)) == 4
    ensures Unpack(H(2), b) == [Le(b[..2]), Le(b[2..])]
  {
    RunWidths();
    assert H(2)[1..] == H(1) && H(1)[1..] == [];
    assert Unpack(H(2), b) == [Le(b[..2])] + Unpack(H(1), b[2..]);
    assert b[2..][..2] == b[2..];
    assert Unpack(H(1), b[2..]) == [Le(b[2..])] + Unpack([], b[4..]);
  }

  lemma LocalLengths(header: bytes)
    requires |header| == 30
    ensures Width(LOCAL_HEADER) == 30
    ensures var v := Unpack(LOCAL_HEADER, header);
      v[0] == Le(header[..4]) && v[9] == Le(header[26..28]) && v[10] == Le(header[28..30])
  {
    hide Width, Le;
    HeaderWidths();
    FirstField(LOCAL_HEADER, header);
    hide Unpack;
    var front, lengths := header[..26], header[26..];
    assert front + lengths == header;
    LocalHeaderParts(front, lengths);
    TwoShorts(lengths);
    assert lengths[..2] == header[26..28] && lengths[2..] == header[28..30];
    var v := Unpack(LOCAL_HEADER, header);
    assert v[9] == v[9..11][0] && v[10] == v[9..11][1];
  }

  /** A canonical local record is where the reader looks for the data: right behind it. */
  lemma DataFollowsRecord(file: bytes, info: ZipInfo)
    requires At(file, info.headerOffset, LocalRecord(info)) && LocalFits(info)
    ensures DataOffset(file, info) == Some(info.headerOffset + |LocalRecord(info)|)
  {
    hide Pack, Unpack, Width, Fits, Le, At, LocalTail, LocalValues, Representable, LocalRequired;
    HeaderWidths();
    LocalShape(info);
    RecordAt(file, info.headerOffset, LOCAL_HEADER, LocalValues(info), LocalTail(info));
    var header := file[info.headerOffset..info.headerOffset + 30];
    assert ReadExactAt(file, info.headerOffset, 30) == Some(header);
    LocalLengths(header);
  }

  /**
   In a bundle that passes the structural checks, the bytes this reader binds for a member are the
   ones the layout gives it, all of them in the file and all in front of the central directory.
   */
  lemma ReadsTheLaidOutRegion(
    file: bytes, infos: seq<ZipInfo>, maxEntries: Option<nat>, maxCentralBytes: Option<nat>, info: ZipInfo)
    requires Accepted(file, infos, maxEntries, maxCentralBytes) && info in infos
    ensures exists g ::
      && IsCanonicalBundle(file, infos, g)
      && DataOffset(file, info) == Some(info.headerOffset + |LocalRecord(info)|)
      && info.headerOffset + |LocalRecord(info)| + info.compressSize <= g.offset <= |file|
  {
    hide Accepted, LocalRegion, CentralBytes, HasCanonicalEnd, CentralRecord, LocalRecord, At, LocalFits,
      CanonicalCentral,
      DataOffset;
    BundleIsExact(file, infos, maxEntries, maxCentralBytes);
    var g :| IsCanonicalBundle(file, infos, g);
    EndInFile(file, g);
    SortByOffsetKeepsMembers(infos);
    RegionHolds(file, SortByOffset(infos), 0, g.offset, info);
    DataFollowsRecord(file, info);
  }

  lemma EndInFile(file: bytes, g: Geometry)
    requires HasCanonicalEnd(file, g)
    ensures g.offset <= |file|
  {
  }
}

/**
 Resource limits (bundle.py): the ceilings the packer derives from its own archive, the checks
 they feed, and the byte-work budget of one verification pass.
 */
module Limits {
  import opened Struct
  import opened Utf8
  import opened ZipFormat
  import opened ZipExtra
  import opened ZipPreflight
  import opened ZipEndLemmas
  import opened ZipEnvelope
  import opened ZipCanonical
  import opened ZipBundle
  import opened StableSort

  const IO_CHUNK_BYTES: nat := 1024 * 1024
  const ABSOLUTE_MAX_ENTRIES: nat := 1_000_000
  const ABSOLUTE_MAX_EXPANDED_BYTES: nat := 1024 * 1024 * 1024 * 1024
  const ABSOLUTE_MAX_COMPRESSION_RATIO: nat := 1_000_000
  const ABSOLUTE_MAX_CENTRAL_DIRECTORY_BYTES: nat := 4 * 1024 * 1024 * 1024

  datatype Ceilings = Ceilings(
    maxEntries: nat, maxExpanded: nat, maxMember: nat, maxRatio: nat, maxCentral: nat)

  // ----- sums over members -----

  function SumBy<T>(items: seq<T>, size: T -> nat): nat {
    if items == [] then 0 else SumBy(items[..|items| - 1], size) + size(items[|items| - 1])
  }

  lemma SumNext<T>(items: seq<T>, size: T -> nat, i: nat)
    requires i <= |items|
    ensures i == 0 ==> SumBy(items[..i], size) == 0
    ensures i < |items| ==> SumBy(items[..i + 1], size) == SumBy(items[..i], size) + size(items[i])
  {
    if i < |items| {
      assert items[..i + 1][..i] == items[..i];
    }
  }

  lemma SumSnoc<T>(items: seq<T>, size: T -> nat, x: T)
    ensures SumBy(items + [x], size) == SumBy(items, size) + size(x)
  {
    assert (items + [x])[..|items|] == items;
  }

  lemma {:induction false} SumCons<T>(items: seq<T>, size: T -> nat)
    requires items != []
    ensures SumBy(items, size) == size(items[0]) + SumBy(items[1..], size)
  {
    if |items| > 1 {
      var n := |items| - 1;
      SumCons(items[..n], size);
      assert items[..n][1..] == items[1..][..n - 1];
    } else {
      assert items[..0] == [] && items[1..] == [];
    }
  }

  lemma {:induction false} SumOfInsert<T>(sorted: seq<T>, item: T, key: T -> nat, size: T -> nat)
    ensures SumBy(InsertBy(sorted, item, key), size) == SumBy(sorted, size) + size(item)
  {
    if sorted == [] || key(sorted[|sorted| - 1]) <= key(item) {
      SumSnoc(sorted, size, item);
    } else {
      var front, last := sorted[..|sorted| - 1], sorted[|sorted| - 1];
      SumOfInsert(front, item, key, size);
      SumSnoc(InsertBy(front, item, key), size, last);
    }
  }

  lemma {:induction false} SumOfSort<T>(items: seq<T>, key: T -> nat, size: T -> nat)
    ensures SumBy(SortBy(items, key), size) == SumBy(items, size)
  {
    if items != [] {
      SumOfSort(items[..|items| - 1], key, size);
      SumOfInsert(SortBy(items[..|items| - 1], key), items[|items| - 1], key, size);
    }
  }

  function Expanded(infos: seq<ZipInfo>): nat {
    SumBy(infos, (i: ZipInfo) => i.fileSize)
  }

  function Compressed(infos: seq<ZipInfo>): nat {
    SumBy(infos, (i: ZipInfo) => i.compressSize)
  }

  // ----- the checks -----

  function Max(a: nat, b: nat): nat {
    if a <= b then b else a
  }

  /** zlib's `compressBound` for one stream. */
  function CompressBound(size: nat): nat {
    size + size / 0x1000 + size / 0x4000 + size / 0x200_0000 + 13
  }

  /** `_deflate_compressed_size_bound`. */
  function DeflateBound(expanded: nat, entries: nat): nat {
    expanded + expanded / 0x1000 + expanded / 0x4000 + expanded / 0x200_0000 + 13 * entries
  }

  function MaxArchiveBytes(c: Ceilings): nat {
    DeflateBound(c.maxExpanded, c.maxEntries) + 2 * c.maxCentral + c.maxEntries * 128 + IO_CHUNK_BYTES
  }

  predicate RatioWithin(expanded: nat, compressed: nat, ratio: nat) {
    expanded <= ratio * Max(1, compressed)
  }

  /** What verification demands of an archive's sizes under given ceilings. */
  ghost predicate WithinCeilings(c: Ceilings, p: Preflight, infos: seq<ZipInfo>) {
    && p.observedEntryCount <= c.maxEntries
    && p.centralDirectorySize <= c.maxCentral
    && p.fileSize <= MaxArchiveBytes(c)
    && Expanded(infos) <= c.maxExpanded
    && (forall i :: i in infos ==> i.fileSize <= c.maxMember && RatioWithin(i.fileSize, i.compressSize, c.maxRatio))
    && RatioWithin(Expanded(infos), Compressed(infos), c.maxRatio)
  }

  /** The resource checks in the order they are made; the samples they list are left out. */
  method CheckResources(c: Ceilings, p: Preflight, infos: seq<ZipInfo>) returns (ok: bool)
    ensures ok <==> WithinCeilings(c, p, infos)
  {
    if p.observedEntryCount > c.maxEntries || p.centralDirectorySize > c.maxCentral || p.fileSize > MaxArchiveBytes(c) {
      return false;
    }
    var expanded, compressed := SumMembers(infos);
    ok := expanded <= c.maxExpanded;
    for i := 0 to |infos|
      invariant ok <==> expanded <= c.maxExpanded && forall x :: x in infos[..i] ==> x.fileSize <= c.maxMember
    {
      assert infos[..i + 1] == infos[..i] + [infos[i]];
      if infos[i].fileSize > c.maxMember {
        ok := false;
      }
    }
    assert infos[..|infos|] == infos;
    ghost var sized := ok;
    for i := 0 to |infos|
      invariant ok <==> sized && forall x :: x in infos[..i] ==> RatioWithin(x.fileSize, x.compressSize, c.maxRatio)
    {
      assert infos[..i + 1] == infos[..i] + [infos[i]];
      if !RatioWithin(infos[i].fileSize, infos[i].compressSize, c.maxRatio) {
        ok := false;
      }
    }
    ok := ok && RatioWithin(expanded, compressed, c.maxRatio);
  }

  method SumMembers(infos: seq<ZipInfo>) returns (expanded: nat, compressed: nat)
    ensures expanded == Expanded(infos) && compressed == Compressed(infos)
  {
    hide SumBy;
    expanded, compressed := 0, 0;
    SumNext(infos, (i: ZipInfo) => i.fileSize, 0);
    SumNext(infos, (i: ZipInfo) => i.compressSize, 0);
    for i := 0 to |infos|
      invariant expanded == Expanded(infos[..i]) && compressed == Compressed(infos[..i])
    {
      SumNext(infos, (i: ZipInfo) => i.fileSize, i);
      SumNext(infos, (i: ZipInfo) => i.compressSize, i);
      expanded := expanded + infos[i].fileSize;
      compressed := compressed + infos[i].compressSize;
    }
    assert infos[..|infos|] == infos;
  }

  // ----- the derived ceilings -----

  /** Division rounded up, as `(a + b - 1) // b`. */
  function CeilDiv(a: nat, b: nat): nat
    requires b > 0
  {
    (a + b - 1) / b
  }

  lemma CeilDivCovers(a: nat, b: nat, q: nat)
    requires b > 0 && q >= CeilDiv(a, b)
    ensures a <= q * b
  {
    var c := CeilDiv(a, b);
    assert a + b - 1 == c * b + (a + b - 1) % b;
    assert q * b >= c * b by {
      MulGrows(c, q, b);
    }
  }

  lemma MulGrows(c: nat, q: nat, b: nat)
    requires c <= q
    ensures c * b <= q * b
  {
  }

  /** A ratio that is a rounded-up quotient is within a limit exactly when the sizes are. */
  lemma RatioIsQuotient(expanded: nat, compressed: nat, limit: nat)
    ensures CeilDiv(expanded, Max(1, compressed)) <= limit <==> RatioWithin(expanded, compressed, limit)
  {
    var b := Max(1, compressed);
    if CeilDiv(expanded, b) <= limit {
      CeilDivCovers(expanded, b, limit);
    }
    if expanded <= limit * b {
      QuotientBelow(expanded + b - 1, b);
      if CeilDiv(expanded, b) >= limit + 1 {
        MulGrows(limit + 1, CeilDiv(expanded, b), b);
        Distributes(limit, 1, b);
      }
    }
  }

  function MemberRatio(info: ZipInfo): nat {
    CeilDiv(info.fileSize, Max(1, info.compressSize))
  }

  /** The largest member size and ratio; `max(..., default=...)` twice over. */
  method Largest(infos: seq<ZipInfo>) returns (memberSize: nat, ratio: nat)
    ensures forall x :: x in infos ==> x.fileSize <= memberSize && MemberRatio(x) <= ratio
    ensures memberSize > 0 ==> exists x :: x in infos && x.fileSize == memberSize
    ensures ratio > 1 ==> exists x :: x in infos && MemberRatio(x) == ratio
  {
    hide MemberRatio;
    memberSize, ratio := 0, if infos == [] then 1 else 0;
    for i := 0 to |infos|
      invariant forall x :: x in infos[..i] ==> x.fileSize <= memberSize && MemberRatio(x) <= ratio
      invariant memberSize == 0 || exists x :: x in infos[..i] && x.fileSize == memberSize
      invariant ratio <= 1 || exists x :: x in infos[..i] && MemberRatio(x) == ratio
    {
      assert infos[..i + 1] == infos[..i] + [infos[i]];
      memberSize := Max(memberSize, infos[i].fileSize);
      ratio := Max(ratio, MemberRatio(infos[i]));
    }
    assert infos[..|infos|] == infos;
  }

  /** Some size of the archive is beyond what any caller may allow. */
  ghost predicate BeyondAbsolute(infos: seq<ZipInfo>, centralSize: nat) {
    || |infos| > ABSOLUTE_MAX_ENTRIES || Expanded(infos) > ABSOLUTE_MAX_EXPANDED_BYTES
    || centralSize > ABSOLUTE_MAX_CENTRAL_DIRECTORY_BYTES
    || (exists i :: i in infos && i.fileSize > ABSOLUTE_MAX_EXPANDED_BYTES)
    || (exists i :: i in infos && !RatioWithin(i.fileSize, i.compressSize, ABSOLUTE_MAX_COMPRESSION_RATIO))
    || !RatioWithin(Expanded(infos), Compressed(infos), ABSOLUTE_MAX_COMPRESSION_RATIO)
  }

  /** Ceilings as tight as the archive allows. */
  ghost predicate AreDerived(c: Ceilings, infos: seq<ZipInfo>, centralSize: nat) {
    && c.maxEntries == Max(1, |infos|)
    && c.maxExpanded == Max(1, Expanded(infos))
    && c.maxCentral == Max(1, centralSize)
    && (forall i :: i in infos ==> i.fileSize <= c.maxMember && RatioWithin(i.fileSize, i.compressSize, c.maxRatio))
    && RatioWithin(Expanded(infos), Compressed(infos), c.maxRatio)
  }

  /** What `_validated_bundle_limit` allows. */
  predicate InRange(c: Ceilings) {
    && 1 <= c.maxEntries <= ABSOLUTE_MAX_ENTRIES
    && 1 <= c.maxExpanded <= ABSOLUTE_MAX_EXPANDED_BYTES
    && 1 <= c.maxMember <= ABSOLUTE_MAX_EXPANDED_BYTES
    && 1 <= c.maxRatio <= ABSOLUTE_MAX_COMPRESSION_RATIO
    && 1 <= c.maxCentral <= ABSOLUTE_MAX_CENTRAL_DIRECTORY_BYTES
  }

  /** `_trusted_bundle_verification_limits`: `None` where an absolute limit is exceeded. */
  method TrustedLimits(infos: seq<ZipInfo>, centralSize: nat) returns (r: Option<Ceilings>)
    ensures r.Some? ==> AreDerived(r.value, infos, centralSize) && InRange(r.value)
    ensures r.None? <==> BeyondAbsolute(infos, centralSize)
  {
    hide SumBy, RatioWithin, Expanded, Compressed, CeilDiv;
    var expanded, compressed := SumMembers(infos);
    var memberSize, memberRatio := Largest(infos);
    var totalRatio := CeilDiv(expanded, Max(1, compressed));
    var ratio := Max(1, Max(memberRatio, totalRatio));
    var c := Ceilings(Max(1, |infos|), Max(1, expanded), Max(1, memberSize), ratio, Max(1, centralSize));
    forall i | i in infos
      ensures MemberRatio(i) <= ratio && RatioWithin(i.fileSize, i.compressSize, ratio)
      ensures MemberRatio(i) <= ABSOLUTE_MAX_COMPRESSION_RATIO <==>
        RatioWithin(i.fileSize, i.compressSize, ABSOLUTE_MAX_COMPRESSION_RATIO)
    {
      RatioIsQuotient(i.fileSize, i.compressSize, ratio);
      RatioIsQuotient(i.fileSize, i.compressSize, ABSOLUTE_MAX_COMPRESSION_RATIO);
    }
    RatioIsQuotient(expanded, compressed, ratio);
    RatioIsQuotient(expanded, compressed, ABSOLUTE_MAX_COMPRESSION_RATIO);
    return if InRange(c) then Some(c) else None;
  }

  // ----- the physical size of a canonical bundle -----

  function LocalSpan(info: ZipInfo): nat {
    |LocalRecord(info)| + info.compressSize
  }

  lemma {:induction false} CentralIsSum(infos: seq<ZipInfo>)
    ensures |CentralBytes(infos)| == SumBy(infos, (i: ZipInfo) => |CentralRecord(i)|)
  {
    hide CentralRecord, SumBy;
    var size := (i: ZipInfo) => |CentralRecord(i)|;
    SumNext(infos, size, 0);
    if infos != [] {
      SumCons(infos, size);
      CentralIsSum(infos[1..]);
    } else {
      assert infos[..0] == infos;
    }
  }

  lemma {:induction false} RegionIsSum(file: bytes, ordered: seq<ZipInfo>, start: nat, end: nat)
    requires LocalRegion(file, ordered, start, end)
    ensures end == start + SumBy(ordered, LocalSpan)
  {
    hide LocalRecord, SumBy;
    SumNext(ordered, LocalSpan, 0);
    if ordered != [] {
      SumCons(ordered, LocalSpan);
      RegionIsSum(file, ordered[1..], start + |LocalRecord(ordered[0])| + ordered[0].compressSize, end);
    } else {
      assert ordered[..0] == ordered;
    }
  }

  lemma PayloadSize(required: seq<Required>)
    requires |required| <= 2 && forall r :: r in required ==> r.width == 8
    ensures |CanonicalExtra(required)| <= 20
  {
    hide ToLe;
    if required != [] {
      assert required[0] in required;
      if |required| == 2 {
        assert required[1] in required;
        assert required[1..][1..] == [];
        assert |Payload(required[1..])| == 8;
      }
      assert |Payload(required)| == 8 * |required|;
    }
  }

  /** A local record is at most four bytes longer than the central record of the same member. */
  lemma LocalRecordIsShort(info: ZipInfo)
    ensures |LocalRecord(info)| <= |CentralRecord(info)| + 4
  {
    hide Pack, Encode, CanonicalExtra, LocalRequired, CentralRequired;
    HeaderWidths();
    CentralRequiredSmall(info);
    PayloadSize(LocalRequired(info));
  }

  lemma {:induction false} LocalSpans(infos: seq<ZipInfo>)
    ensures SumBy(infos, LocalSpan) <=
      SumBy(infos, (i: ZipInfo) => |CentralRecord(i)|) + 4 * |infos| + Compressed(infos)
  {
    hide LocalRecord, CentralRecord;
    if infos != [] {
      LocalSpans(infos[..|infos| - 1]);
      LocalRecordIsShort(infos[|infos| - 1]);
    }
  }

  lemma QuotientBelow(a: nat, d: nat)
    requires d > 0
    ensures (a / d) * d <= a
  {
  }

  lemma Distributes(x: nat, y: nat, d: nat)
    ensures (x + y) * d == x * d + y * d
  {
  }

  lemma FloorsAdd(a: nat, b: nat, d: nat)
    requires d > 0
    ensures a / d + b / d <= (a + b) / d
  {
    var x, y := a / d, b / d;
    QuotientBelow(a, d);
    QuotientBelow(b, d);
    Distributes(x, y, d);
    DivAtLeast(a + b, x + y, d);
  }

  lemma DivAtLeast(n: nat, q: nat, d: nat)
    requires d > 0 && q * d <= n
    ensures q <= n / d
  {
    if q > n / d {
      MulGrows(n / d + 1, q, d);
    }
  }

  /** The bound on the whole covers the bounds on the members: sums of floors lose to the floor of the sum. */
  lemma {:induction false} BoundsAdd(infos: seq<ZipInfo>)
    requires forall i :: i in infos ==> i.compressSize <= CompressBound(i.fileSize)
    ensures Compressed(infos) <= DeflateBound(Expanded(infos), |infos|)
  {
    if infos != [] {
      var front, last := infos[..|infos| - 1], infos[|infos| - 1];
      BoundsAdd(front);
      assert last in infos;
      FloorsAdd(Expanded(front), last.fileSize, 0x1000);
      FloorsAdd(Expanded(front), last.fileSize, 0x4000);
      FloorsAdd(Expanded(front), last.fileSize, 0x200_0000);
    }
  }

  lemma DeflateBoundGrows(a: nat, b: nat, m: nat, n: nat)
    requires a <= b && m <= n
    ensures DeflateBound(a, m) <= DeflateBound(b, n)
  {
    FloorsAdd(a, b - a, 0x1000);
    FloorsAdd(a, b - a, 0x4000);
    FloorsAdd(a, b - a, 0x200_0000);
  }

  lemma CanonicalFileSize(file: bytes, infos: seq<ZipInfo>, g: Geometry)
    requires IsCanonicalBundle(file, infos, g)
    ensures |file| <= Compressed(infos) + 2 * g.size + 4 * |infos| + 98
  {
    hide LocalRegion, CentralBytes, LocalRecord, CentralRecord, SumBy, SortBy;
    CanonicalTerminal(file, g);
    RegionIsSum(file, SortByOffset(infos), 0, g.offset);
    SumOfSort(infos, (i: ZipInfo) => i.headerOffset, LocalSpan);
    LocalSpans(infos);
    CentralIsSum(infos);
  }

  /**
   The derived ceilings suffice: a bundle in the packer's layout whose members stay within
   `compressBound` passes the preflight and every resource check under the ceilings derived from it.
   */
  lemma DerivedCeilingsSuffice(file: bytes, infos: seq<ZipInfo>, g: Geometry, c: Ceilings)
    requires IsCanonicalBundle(file, infos, g)
    requires forall i :: i in infos ==> i.compressSize <= CompressBound(i.fileSize)
    requires AreDerived(c, infos, g.size)
    ensures PreflightOf(file, Some(c.maxEntries), Some(c.maxCentral)) ==
      Ok(Preflight(|file|, |infos|, |infos|, g.size, g.offset))
    ensures WithinCeilings(c, Preflight(|file|, |infos|, |infos|, g.size, g.offset), infos)
  {
    hide IsPackerLayout, SumBy, HasCanonicalEnd, EnvelopeErrors, ReadEnd, CountCentral;
    BundleIsExact(file, infos, Some(c.maxEntries), Some(c.maxCentral));
    assert Accepted(file, infos, Some(c.maxEntries), Some(c.maxCentral));
    EndIsExact(file, g);
    CanonicalFileSize(file, infos, g);
    BoundsAdd(infos);
    DeflateBoundGrows(Expanded(infos), c.maxExpanded, |infos|, c.maxEntries);
  }
}

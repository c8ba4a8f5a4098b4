/**
 The record formats of PKWARE APPNOTE.TXT used by a bundle, the members Python's `zipfile`
 reports, and the one byte layout the packer gives them.
 */
module ZipFormat {
  import opened Struct
  import opened Utf8

  const LOCAL_SIGNATURE: nat := 0x04034B50
  const CENTRAL_SIGNATURE: nat := 0x02014B50
  const END_SIGNATURE: nat := 0x06054B50
  const ZIP64_END_SIGNATURE: nat := 0x06064B50
  const ZIP64_LOCATOR_SIGNATURE: nat := 0x07064B50
  const ZIP64_EXTRA_ID: nat := 0x0001
  const UINT16_MAX: nat := 0xFFFF
  const UINT32_MAX: nat := 0xFFFF_FFFF

  /** `zipfile.ZIP64_LIMIT` and `zipfile.ZIP_FILECOUNT_LIMIT`. */
  const ZIP64_LIMIT: nat := 0x7FFF_FFFF
  const FILE_COUNT_LIMIT: nat := 0xFFFF

  const STORED: nat := 0
  const DEFLATED: nat := 8

  /** Sections 4.3.7, 4.3.12, 4.3.16, 4.3.14 and 4.3.15 of APPNOTE. */
  const LOCAL_HEADER: Format := I(1) + H(5) + I(3) + H(2)
  const CENTRAL_HEADER: Format := I(1) + H(6) + I(3) + H(5) + I(2)
  const END_RECORD: Format := I(1) + H(4) + I(2) + H(1)
  const ZIP64_END_RECORD: Format := I(1) + Q(1) + H(2) + I(2) + Q(4)
  const ZIP64_LOCATOR: Format := I(2) + Q(1) + I(1)

  lemma HeaderWidths()
    ensures Width(LOCAL_HEADER) == 30
    ensures Width(CENTRAL_HEADER) == 46
    ensures Width(END_RECORD) == 22
    ensures Width(ZIP64_END_RECORD) == 56
    ensures Width(ZIP64_LOCATOR) == 20
  {
    hide Width, Run;
    WidthOf4(I(1), H(5), I(3), H(2));
    WidthOf4(I(1) + H(6), I(3), H(5), I(2));
    WidthAppend(I(1), H(6));
    WidthOf4(I(1), H(4), I(2), H(1));
    WidthOf4(I(1) + Q(1), H(2), I(2), Q(4));
    WidthAppend(I(1), Q(1));
    WidthAppend(I(2), Q(1));
    WidthAppend(I(2) + Q(1), I(1));
    RunWidths();
  }

  lemma WidthOf4(a: Format, b: Format, c: Format, d: Format)
    ensures Width(a + b + c + d) == Width(a) + Width(b) + Width(c) + Width(d)
  {
    WidthAppend(a, b);
    WidthAppend(a + b, c);
    WidthAppend(a + b + c, d);
  }

  lemma RunWidths()
    ensures forall n: nat {:trigger H(n)} :: Width(H(n)) == 2 * n
    ensures forall n: nat {:trigger I(n)} :: Width(I(n)) == 4 * n
    ensures forall n: nat {:trigger Q(n)} :: Width(Q(n)) == 8 * n
  {
    forall n: nat
      ensures Width(H(n)) == 2 * n && Width(I(n)) == 4 * n && Width(Q(n)) == 8 * n
    {
      WidthRun(2, n);
      WidthRun(4, n);
      WidthRun(8, n);
    }
  }

  /** The `zipfile.ZipInfo` attributes the bundle checks read. */
  datatype ZipInfo = ZipInfo(
    filename: Text,
    flagBits: nat,
    compressType: nat,
    crc: nat,
    compressSize: nat,
    fileSize: nat,
    headerOffset: nat,
    createSystem: byte,
    createVersion: byte,
    extractVersion: nat,
    internalAttr: nat,
    externalAttr: nat,
    dateTime: seq<int>,
    volume: nat)

  function Min(a: nat, b: nat): nat {
    if a <= b then a else b
  }

  /** A file handle's `seek` and exact `read`, with `None` for the exceptions they raise. */
  function ReadExactAt(file: bytes, offset: int, size: nat): (data: Option<bytes>)
    ensures data.Some? <==> 0 <= offset && offset + size <= |file|
    ensures data.Some? ==> data.value == file[offset..offset + size]
  {
    if 0 <= offset && offset + size <= |file| then Some(file[offset..offset + size]) else None
  }

  /**
   The layout decision of Python's seekable writer. The source multiplies by the float 1.05;
   around the limit the product differs from it by at least 0.05, far above a rounding step.
   */
  predicate LocalZip64Required(uncompressed: nat, compressed: nat) {
    uncompressed * 105 > ZIP64_LIMIT * 100 || compressed > ZIP64_LIMIT
  }

  predicate CentralZip64Required(value: nat) {
    value > ZIP64_LIMIT
  }

  predicate EndZip64Required(count: nat, size: nat, offset: nat) {
    count > FILE_COUNT_LIMIT || size > ZIP64_LIMIT || offset > ZIP64_LIMIT
  }

  type NotAscii = c: int | 0x80 <= c < 0x11_0000 witness 0x80

  /** Code page 437 for bytes from 0x80 up; below, it is ASCII. */
  const CP437_HIGH: seq<NotAscii> := [
    0xC7, 0xFC, 0xE9, 0xE2, 0xE4, 0xE0, 0xE5, 0xE7, 0xEA, 0xEB, 0xE8, 0xEF,
    0xEE, 0xEC, 0xC4, 0xC5, 0xC9, 0xE6, 0xC6, 0xF4, 0xF6, 0xF2, 0xFB, 0xF9,
    0xFF, 0xD6, 0xDC, 0xA2, 0xA3, 0xA5, 0x20A7, 0x192, 0xE1, 0xED, 0xF3, 0xFA,
    0xF1, 0xD1, 0xAA, 0xBA, 0xBF, 0x2310, 0xAC, 0xBD, 0xBC, 0xA1, 0xAB, 0xBB,
    0x2591, 0x2592, 0x2593, 0x2502, 0x2524, 0x2561, 0x2562, 0x2556, 0x2555, 0x2563, 0x2551, 0x2557,
    0x255D, 0x255C, 0x255B, 0x2510, 0x2514, 0x2534, 0x252C, 0x251C, 0x2500, 0x253C, 0x255E, 0x255F,
    0x255A, 0x2554, 0x2569, 0x2566, 0x2560, 0x2550, 0x256C, 0x2567, 0x2568, 0x2564, 0x2565, 0x2559,
    0x2558, 0x2552, 0x2553, 0x256B, 0x256A, 0x2518, 0x250C, 0x2588, 0x2584, 0x258C, 0x2590, 0x2580,
    0x3B1, 0xDF, 0x393, 0x3C0, 0x3A3, 0x3C3, 0xB5, 0x3C4, 0x3A6, 0x398, 0x3A9, 0x3B4,
    0x221E, 0x3C6, 0x3B5, 0x2229, 0x2261, 0xB1, 0x2265, 0x2264, 0x2320, 0x2321, 0xF7, 0x2248,
    0xB0, 0x2219, 0xB7, 0x221A, 0x207F, 0xB2, 0x25A0, 0xA0]

  function DecodeCp437Byte(b: byte): (c: CodePoint)
    ensures if b < 0x80 then c == b else c >= 0x80
  {
    if b < 0x80 then b else CP437_HIGH[b - 0x80]
  }

  function DecodeCp437(raw: bytes): (s: Text)
    ensures |s| == |raw|
    ensures forall i :: 0 <= i < |raw| ==> s[i] == DecodeCp437Byte(raw[i])
  {
    seq(|raw|, i requires 0 <= i < |raw| => DecodeCp437Byte(raw[i]))
  }

  lemma DecodeCp437IsAscii(raw: bytes, name: Text)
    requires IsAscii(name)
    ensures DecodeCp437(raw) == name <==> raw == name
  {
    var decoded := DecodeCp437(raw);
    if decoded == name {
      forall i | 0 <= i < |raw| ensures raw[i] == name[i] {
        assert decoded[i] == DecodeCp437Byte(raw[i]);
      }
    }
  }

  /** Bit 11 of the flags; with `0x800` the only bit a canonical member may set. */
  predicate HasUtf8Flag(flags: nat) {
    flags / 0x800 % 2 == 1
  }

  function DecodeFilename(raw: bytes, flags: nat): Option<Text> {
    if HasUtf8Flag(flags) then Decode(raw) else Some(DecodeCp437(raw))
  }

  function ExpectedFlags(name: Text): nat {
    if IsAscii(name) then 0 else 0x800
  }

  /** A name under its expected flags has exactly one spelling in bytes: its UTF-8 encoding. */
  lemma FilenameBytesUnique(raw: bytes, name: Text)
    ensures DecodeFilename(raw, ExpectedFlags(name)) == Some(name) <==> Encodable(name) && raw == Encode(name)
  {
    hide Decode, DecodeCp437, Encode;
    if IsAscii(name) {
      AsciiIsEncodable(name);
      EncodeAscii(name);
      DecodeCp437IsAscii(raw, name);
      assert DecodeFilename(raw, 0) == Some(DecodeCp437(raw));
    } else {
      DecodeIsInverse(raw, name);
      assert DecodeFilename(raw, 0x800) == Decode(raw);
    }
  }

  lemma AsciiIsEncodable(name: Text)
    requires IsAscii(name)
    ensures Encodable(name)
  {
  }
}

/**
 Python text and its strict UTF-8 codec (section 3 of RFC 3629).

 A Python `str` is a sequence of code points, surrogates included; only the others, the
 Unicode scalar values, have an encoding.
 */
module Utf8 {
  import opened Struct

  type CodePoint = x: int | 0 <= x < 0x11_0000
  type Text = seq<CodePoint>

  datatype Option<+T> = None | Some(value: T)

  /** A string literal as a text. */
  function TextOf(s: string): (t: Text)
    ensures |t| == |s|
  {
    seq(|s|, i requires 0 <= i < |s| => s[i] as int)
  }

  predicate IsSurrogate(c: CodePoint) {
    0xD800 <= c < 0xE000
  }

  predicate Encodable(s: Text) {
    forall i :: 0 <= i < |s| ==> !IsSurrogate(s[i])
  }

  function Continuation(bits: int): (b: byte)
    requires 0 <= bits < 64
  {
    0x80 + bits
  }

  function EncodePoint(c: CodePoint): (b: bytes)
    ensures 1 <= |b| <= 4
  {
    var c1, c2, c3 := c / 64, c / 64 / 64, c / 64 / 64 / 64;
    if c < 0x80 then [c]
    else if c < 0x800 then [0xC0 + c1, Continuation(c % 64)]
    else if c < 0x1_0000 then [0xE0 + c2, Continuation(c1 % 64), Continuation(c % 64)]
    else [0xF0 + c3, Continuation(c2 % 64), Continuation(c1 % 64), Continuation(c % 64)]
  }

  /** `text.encode("utf-8")`; surrogates never reach it, since `Encodable` is checked first. */
  function Encode(s: Text): (b: bytes)
    ensures |s| <= |b|
  {
    if s == [] then [] else EncodePoint(s[0]) + Encode(s[1..])
  }

  /** Number of bytes the lead byte announces; 0 for a byte that cannot start a sequence. */
  function SequenceLength(lead: byte): nat {
    if lead < 0x80 then 1
    else if lead < 0xC0 then 0
    else if lead < 0xE0 then 2
    else if lead < 0xF0 then 3
    else if lead < 0xF8 then 4
    else 0
  }

  function Bits(b: byte): int {
    b % 64
  }

  /** The code point a sequence of `SequenceLength(b[0])` bytes spells, before any check of its form. */
  function Candidate(b: bytes): int
    requires 0 < |b| && SequenceLength(b[0]) == |b|
  {
    if |b| == 1 then b[0]
    else if |b| == 2 then (b[0] - 0xC0) * 64 + Bits(b[1])
    else if |b| == 3 then (b[0] - 0xE0) * 4096 + Bits(b[1]) * 64 + Bits(b[2])
    else (b[0] - 0xF0) * 0x4_0000 + Bits(b[1]) * 4096 + Bits(b[2]) * 64 + Bits(b[3])
  }

  /**
   The first code point of `b`. Overlong forms, stray continuation bytes, surrogates and
   values past U+10FFFF are the sequences that differ from the encoding of what they spell.
   */
  function DecodePoint(b: bytes): (r: Option<CodePoint>)
    ensures r.Some? ==> !IsSurrogate(r.value) && EncodePoint(r.value) <= b
  {
    if b == [] then None
    else
      var n := SequenceLength(b[0]);
      if n == 0 || |b| < n then None
      else
        var c := Candidate(b[..n]);
        if 0 <= c < 0x11_0000 && !IsSurrogate(c) && EncodePoint(c) == b[..n] then Some(c) else None
  }

  /** `data.decode("utf-8", errors="strict")`. */
  function Decode(b: bytes): (r: Option<Text>)
    decreases |b|
  {
    if b == [] then Some([])
    else
      match DecodePoint(b)
      case None => None
      case Some(c) =>
        match Decode(b[|EncodePoint(c)|..])
        case None => None
        case Some(rest) => Some([c] + rest)
  }

  /** `data.decode("utf-8", errors="ignore")`: bytes that start no well-formed sequence are dropped. */
  function DecodeIgnoring(b: bytes): Text
    decreases |b|
  {
    if b == [] then []
    else
      match DecodePoint(b)
      case None => DecodeIgnoring(b[1..])
      case Some(c) => [c] + DecodeIgnoring(b[|EncodePoint(c)|..])
  }

  lemma CandidateOfEncodePoint(c: CodePoint)
    ensures SequenceLength(EncodePoint(c)[0]) == |EncodePoint(c)|
    ensures Candidate(EncodePoint(c)) == c
  {
    var c1: int, c2: int, c3: int := c / 64, c / 64 / 64, c / 64 / 64 / 64;
    assert c == 64 * c1 + c % 64 && c1 == 64 * c2 + c1 % 64 && c2 == 64 * c3 + c2 % 64;
    BitsOfContinuation(c % 64);
    BitsOfContinuation(c1 % 64);
    BitsOfContinuation(c2 % 64);
    if c < 0x80 {
    } else if c < 0x800 {
      assert c1 < 32;
    } else if c < 0x1_0000 {
      assert c2 < 16;
    } else {
      assert c3 < 8;
    }
  }

  lemma BitsOfContinuation(bits: int)
    requires 0 <= bits < 64
    ensures Bits(Continuation(bits)) == bits
  {
  }

  lemma DecodePointOfEncodePoint(c: CodePoint, rest: bytes)
    requires !IsSurrogate(c)
    ensures DecodePoint(EncodePoint(c) + rest) == Some(c)
  {
    var e := EncodePoint(c);
    CandidateOfEncodePoint(c);
    assert (e + rest)[..|e|] == e && (e + rest)[0] == e[0];
  }

  lemma {:induction false} DecodeOfEncode(s: Text)
    requires Encodable(s)
    ensures Decode(Encode(s)) == Some(s)
  {
    if s != [] {
      DecodePointOfEncodePoint(s[0], Encode(s[1..]));
      DecodeOfEncode(s[1..]);
      assert Encode(s)[|EncodePoint(s[0])|..] == Encode(s[1..]);
      assert [s[0]] + s[1..] == s;
    }
  }

  lemma EncodeCons(c: CodePoint, s: Text)
    ensures Encode([c] + s) == EncodePoint(c) + Encode(s)
    ensures Encodable([c] + s) <==> !IsSurrogate(c) && Encodable(s)
  {
    var all := [c] + s;
    assert all[0] == c && all[1..] == s;
    assert forall i :: 0 <= i < |s| ==> all[i + 1] == s[i];
  }

  lemma DecodeCons(b: bytes) returns (c: CodePoint, rest: bytes)
    requires b != [] && Decode(b).Some?
    ensures b == EncodePoint(c) + rest && |rest| < |b| && !IsSurrogate(c)
    ensures Decode(rest).Some? && Decode(b).value == [c] + Decode(rest).value
  {
    hide EncodePoint, DecodePoint;
    c := DecodePoint(b).value;
    rest := b[|EncodePoint(c)|..];
  }

  lemma {:induction false} EncodeOfDecode(b: bytes)
    requires Decode(b).Some?
    ensures Encodable(Decode(b).value)
    ensures Encode(Decode(b).value) == b
    decreases |b|
  {
    if b != [] {
      hide *;
      var c, rest := DecodeCons(b);
      EncodeOfDecode(rest);
      EncodeCons(c, Decode(rest).value);
    }
  }

  lemma {:induction false} EncodeAppend(s: Text, t: Text)
    ensures Encode(s + t) == Encode(s) + Encode(t)
  {
    if s == [] {
      assert s + t == t;
    } else {
      assert (s + t)[1..] == s[1..] + t;
      EncodeAppend(s[1..], t);
    }
  }

  predicate IsAscii(s: Text) {
    forall i :: 0 <= i < |s| ==> s[i] < 0x80
  }

  lemma {:induction false} EncodeAscii(s: Text)
    requires IsAscii(s)
    ensures Encode(s) == s
  {
    if s != [] {
      EncodeAscii(s[1..]);
      assert [s[0]] + s[1..] == s;
    }
  }

  /** Decoding and encoding are inverse partial functions: each text has one spelling. */
  lemma DecodeIsInverse(b: bytes, s: Text)
    ensures Decode(b) == Some(s) <==> Encodable(s) && b == Encode(s)
  {
    if Decode(b) == Some(s) {
      EncodeOfDecode(b);
    }
    if Encodable(s) && b == Encode(s) {
      DecodeOfEncode(s);
    }
  }
}

/** The scalar and line syntax of the atomic YAML subset: quoting, numbers, whitespace, lines. */
module YamlText {
  import opened Utf8

  datatype Result<+T> = Ok(value: T) | Err

  /** `str.isspace` for one character. */
  predicate IsSpace(c: char) {
    var n := c as int;
    9 <= n <= 13 || 0x1C <= n <= 0x20 || n == 0x85 || n == 0xA0 || n == 0x1680 || 0x2000 <= n <= 0x200A ||
    n == 0x2028 || n == 0x2029 || n == 0x202F || n == 0x205F || n == 0x3000
  }

  /** The characters `str.splitlines` breaks at. */
  predicate IsLineBreak(c: char) {
    var n := c as int;
    10 <= n <= 13 || 0x1C <= n <= 0x1E || n == 0x85 || n == 0x2028 || n == 0x2029
  }

  /** Which non-ASCII characters Unicode counts as letters and digits. */
  datatype Letters = Letters(alnum: set<char>, alpha: set<char>)
  {
    ghost predicate Valid() {
      alpha <= alnum && forall c :: c in alnum ==> c as int >= 0x80 && !IsSpace(c)
    }

    predicate IsAlpha(c: char) {
      'a' <= c <= 'z' || 'A' <= c <= 'Z' || c in alpha
    }

    predicate IsAlnum(c: char) {
      IsAlpha(c) || '0' <= c <= '9' || c in alnum
    }
  }

  function LStrip(s: string): (r: string)
    ensures |r| <= |s|
    ensures r == "" || !IsSpace(r[0])
  {
    if s != "" && IsSpace(s[0]) then LStrip(s[1..]) else s
  }

  function RStrip(s: string): (r: string)
    ensures |r| <= |s|
    ensures r == "" || !IsSpace(r[|r| - 1])
  {
    if s != "" && IsSpace(s[|s| - 1]) then RStrip(s[..|s| - 1]) else s
  }

  function Strip(s: string): string {
    RStrip(LStrip(s))
  }

  predicate StartsWith(s: string, prefix: string) {
    prefix <= s
  }

  /** Text that stripping leaves alone. */
  predicate IsTrim(s: string) {
    s != "" && !IsSpace(s[0]) && !IsSpace(s[|s| - 1])
  }

  lemma LStripSpace(s: string)
    ensures LStrip(" " + s) == LStrip(s)
  {
    assert (" " + s)[1..] == s;
  }

  lemma StripTrim(s: string)
    requires IsTrim(s)
    ensures LStrip(s) == s && Strip(s) == s && Strip(" " + s) == s
  {
    hide IsSpace;
    assert LStrip(s) == s && RStrip(s) == s;
    LStripSpace(s);
  }

  lemma StripNothing()
    ensures Strip("") == ""
  {
  }

  // ----- JSON strings -----

  const HEX: string := "0123456789abcdef"

  function HexDigit(d: int): char
    requires 0 <= d < 16
  {
    HEX[d]
  }

  /** `{0:04x}`. */
  function Hex4(n: int): (s: string)
    requires 0 <= n < 0x1_0000
    ensures |s| == 4
  {
    [HexDigit(n / 0x1000), HexDigit(n / 0x100 % 16), HexDigit(n / 0x10 % 16), HexDigit(n % 16)]
  }

  function HexValue(c: char): (v: Option<int>)
    ensures v.Some? ==> 0 <= v.value < 16
  {
    if '0' <= c <= '9' then Some(c as int - '0' as int)
    else if 'a' <= c <= 'f' then Some(c as int - 'a' as int + 10)
    else if 'A' <= c <= 'F' then Some(c as int - 'A' as int + 10)
    else None
  }

  function Hex4Value(s: string): (r: Option<int>)
    ensures r.Some? ==> |s| >= 4 && 0 <= r.value < 0x1_0000
  {
    if |s| < 4 then None
    else
      var a, b, c, d := HexValue(s[0]), HexValue(s[1]), HexValue(s[2]), HexValue(s[3]);
      if a.None? || b.None? || c.None? || d.None? then None
      else Some(a.value * 0x1000 + b.value * 0x100 + c.value * 0x10 + d.value)
  }

  predicate IsHigh(c: CodePoint) {
    0xD800 <= c < 0xDC00
  }

  predicate IsLow(c: CodePoint) {
    0xDC00 <= c < 0xE000
  }

  function Combine(high: CodePoint, low: CodePoint): CodePoint
    requires IsHigh(high) && IsLow(low)
  {
    0x1_0000 + (high - 0xD800) * 0x400 + (low - 0xDC00)
  }

  function UnicodeEscape(n: int): string
    requires 0 <= n < 0x1_0000
  {
    "\\u" + Hex4(n)
  }

  /** One character of `json.dumps(text, ensure_ascii=True)`. */
  function Escape(c: CodePoint): string {
    if c == 0x22 then "\\\""
    else if c == 0x5C then "\\\\"
    else if c == 0x0A then "\\n"
    else if c == 0x0D then "\\r"
    else if c == 0x09 then "\\t"
    else if c == 0x0C then "\\f"
    else if c == 0x08 then "\\b"
    else if 0x20 <= c <= 0x7E then [c as char]
    else if c < 0x1_0000 then UnicodeEscape(c)
    else UnicodeEscape(0xD800 + (c - 0x1_0000) / 0x400) + UnicodeEscape(0xDC00 + (c - 0x1_0000) % 0x400)
  }

  function EscapeAll(s: Text): string {
    if s == [] then "" else Escape(s[0]) + EscapeAll(s[1..])
  }

  function Quote(s: Text): string {
    "\"" + EscapeAll(s) + "\""
  }

  function SimpleEscape(c: char): Option<CodePoint> {
    if c == '\"' then Some(0x22)
    else if c == '\\' then Some(0x5C)
    else if c == '/' then Some(0x2F)
    else if c == 'b' then Some(0x08)
    else if c == 'f' then Some(0x0C)
    else if c == 'n' then Some(0x0A)
    else if c == 'r' then Some(0x0D)
    else if c == 't' then Some(0x09)
    else None
  }

  /** What the JSON scanner makes of a string body: its text, and the input behind the closing quote. */
  datatype Scanned = Scanned(text: Text, rest: string)

  function Prepend(c: CodePoint, r: Option<Scanned>): Option<Scanned> {
    if r.Some? then Some(Scanned([c] + r.value.text, r.value.rest)) else None
  }

  /** The character a string body starts with, and how much of the input spells it. */
  function ScanOne(s: string): (r: Option<(CodePoint, nat)>)
    requires s != ""
    ensures r.Some? ==> 0 < r.value.1 <= |s|
  {
    if s[0] as int < 0x20 then None
    else if s[0] != '\\' then Some((s[0] as int, 1))
    else if |s| < 2 then None
    else if s[1] != 'u' then
      var c := SimpleEscape(s[1]);
      if c.None? then None else Some((c.value, 2))
    else
      var first := Hex4Value(s[2..]);
      if first.None? then None
      else
        var rest := s[6..];
        if IsHigh(first.value) && StartsWith(rest, "\\u") then
          var second := Hex4Value(rest[2..]);
          if second.None? then None
          else if IsLow(second.value) then Some((Combine(first.value, second.value), 12))
          else Some((first.value, 6))
        else Some((first.value, 6))
  }

  function Scan(s: string): (r: Option<Scanned>)
    ensures r.Some? ==> |r.value.rest| < |s| && r.value.rest == s[|s| - |r.value.rest|..]
    decreases |s|
  {
    if s == "" then None
    else if s[0] == '\"' then Some(Scanned([], s[1..]))
    else
      match ScanOne(s)
      case None => None
      case Some((c, n)) => Prepend(c, Scan(s[n..]))
  }

  /** The text with every high surrogate joined to a low one right behind it. */
  function Merge(s: Text): (r: Text)
    ensures |r| <= |s|
  {
    if s == [] then []
    else if |s| >= 2 && IsHigh(s[0]) && IsLow(s[1]) then [Combine(s[0], s[1])] + Merge(s[2..])
    else [s[0]] + Merge(s[1..])
  }

  /** Two code points that JSON would spell like one. */
  predicate HasSurrogatePair(s: Text) {
    exists i :: 0 <= i < |s| - 1 && IsHigh(s[i]) && IsLow(s[i + 1])
  }

  lemma {:induction false} MergeChangesPairs(s: Text)
    ensures Merge(s) == s <==> !HasSurrogatePair(s)
    ensures HasSurrogatePair(s) ==> |Merge(s)| < |s|
  {
    if s != [] {
      var rest := s[1..];
      if |s| >= 2 && IsHigh(s[0]) && IsLow(s[1]) {
      } else {
        MergeChangesPairs(rest);
        assert s == [s[0]] + rest;
        if HasSurrogatePair(s) {
          var i :| 0 <= i < |s| - 1 && IsHigh(s[i]) && IsLow(s[i + 1]);
          assert IsHigh(rest[i - 1]) && IsLow(rest[i]);
        }
        if HasSurrogatePair(rest) {
          var i :| 0 <= i < |rest| - 1 && IsHigh(rest[i]) && IsLow(rest[i + 1]);
          assert IsHigh(s[i + 1]) && IsLow(s[i + 2]);
        }
      }
    }
  }

  lemma HexDigitValue(d: int)
    requires 0 <= d < 16
    ensures HexValue(HexDigit(d)) == Some(d)
  {
  }

  lemma Nibbles(n: int)
    requires 0 <= n < 0x1_0000
    ensures n == n / 0x1000 * 0x1000 + n / 0x100 % 16 * 0x100 + n / 0x10 % 16 * 0x10 + n % 16
  {
    assert n / 0x100 == n / 0x1000 * 16 + n / 0x100 % 16;
    assert n / 0x10 == n / 0x100 * 16 + n / 0x10 % 16;
  }

  lemma Hex4RoundTrip(n: int, rest: string)
    requires 0 <= n < 0x1_0000
    ensures Hex4Value(Hex4(n) + rest) == Some(n)
  {
    hide HexDigit, HexValue;
    var s := Hex4(n) + rest;
    HexDigitValue(n / 0x1000);
    HexDigitValue(n / 0x100 % 16);
    HexDigitValue(n / 0x10 % 16);
    HexDigitValue(n % 16);
    Nibbles(n);
    assert s[0] == HexDigit(n / 0x1000) && s[1] == HexDigit(n / 0x100 % 16);
    assert s[2] == HexDigit(n / 0x10 % 16) && s[3] == HexDigit(n % 16);
  }

  /** Scanning a `\u` escape that does not start a surrogate pair. */
  lemma ScanUnicode(n: CodePoint, rest: string)
    requires n < 0x1_0000
    requires IsHigh(n) && StartsWith(rest, "\\u") ==>
      Hex4Value(rest[2..]).Some? && !IsLow(Hex4Value(rest[2..]).value)
    ensures Scan(UnicodeEscape(n) + rest) == Prepend(n, Scan(rest))
  {
    hide Hex4, Hex4Value;
    var s := UnicodeEscape(n) + rest;
    assert s[2..] == Hex4(n) + rest && s[6..] == rest;
    assert s[0] == '\\' && s[1] == 'u';
    Hex4RoundTrip(n, rest);
  }

  lemma ScanPair(high: CodePoint, low: CodePoint, rest: string)
    requires IsHigh(high) && IsLow(low)
    ensures Scan(UnicodeEscape(high) + UnicodeEscape(low) + rest) == Prepend(Combine(high, low), Scan(rest))
  {
    hide Hex4, Hex4Value;
    var s := UnicodeEscape(high) + UnicodeEscape(low) + rest;
    var tail := UnicodeEscape(low) + rest;
    assert s[0] == '\\' && s[1] == 'u' && s[2..] == Hex4(high) + tail && s[6..] == tail;
    assert tail[..2] == "\\u" && tail[2..] == Hex4(low) + rest && tail[6..] == rest;
    Hex4RoundTrip(high, tail);
    Hex4RoundTrip(low, rest);
  }

  /** A character with an escape of its own, or none. */
  predicate IsPlain(c: CodePoint) {
    c in {0x22, 0x5C, 0x0A, 0x0D, 0x09, 0x0C, 0x08} || 0x20 <= c <= 0x7E
  }

  lemma ScanLiteral(c: CodePoint, rest: string)
    requires 0x20 <= c <= 0x7E && c != 0x22 && c != 0x5C
    ensures Scan([c as char] + rest) == Prepend(c, Scan(rest))
  {
    hide Hex4Value, SimpleEscape;
    assert ([c as char] + rest)[1..] == rest;
  }

  lemma ScanSimple(e: char, c: CodePoint, rest: string)
    requires e != 'u' && SimpleEscape(e) == Some(c)
    ensures Scan(['\\', e] + rest) == Prepend(c, Scan(rest))
  {
    hide Hex4Value, SimpleEscape;
    var s := ['\\', e] + rest;
    assert s[0] == '\\' && s[1] == e && s[2..] == rest;
  }

  lemma ScanPlain(c: CodePoint, rest: string)
    requires IsPlain(c)
    ensures Scan(Escape(c) + rest) == Prepend(c, Scan(rest))
  {
    hide Scan;
    if 0x20 <= c <= 0x7E && c != 0x22 && c != 0x5C {
      ScanLiteral(c, rest);
    } else {
      ScanSimple(Escape(c)[1], c, rest);
    }
  }

  lemma PlainIsNotUnicode(c: CodePoint, rest: string)
    requires IsPlain(c)
    ensures !StartsWith(Escape(c) + rest, "\\u")
  {
    var e := Escape(c);
    assert (e + rest)[0] == e[0];
    assert |e| == 2 ==> (e + rest)[1] == e[1];
  }

  lemma EscapeUnicodeOnly(c: CodePoint)
    requires !IsPlain(c)
    ensures c < 0x1_0000 ==> Escape(c) == UnicodeEscape(c)
  {
  }

  /** Behind a lone high surrogate comes nothing the scanner would join to it. */
  lemma EscapeAfterHigh(c: CodePoint, rest: string)
    requires !IsLow(c) && StartsWith(Escape(c) + rest, "\\u")
    ensures var s := Escape(c) + rest;
      Hex4Value(s[2..]).Some? && !IsLow(Hex4Value(s[2..]).value)
  {
    hide Hex4, Hex4Value;
    var e := Escape(c);
    var s := e + rest;
    if IsPlain(c) {
      PlainIsNotUnicode(c, rest);
    } else if c < 0x1_0000 {
      assert s[2..] == Hex4(c) + rest;
      Hex4RoundTrip(c, rest);
    } else {
      var high, low := 0xD800 + (c - 0x1_0000) / 0x400, 0xDC00 + (c - 0x1_0000) % 0x400;
      assert s[2..] == Hex4(high) + (UnicodeEscape(low) + rest);
      Hex4RoundTrip(high, UnicodeEscape(low) + rest);
    }
  }

  lemma HighThenMore(s: Text, rest: string)
    requires s != [] && (IsHigh(s[0]) ==> |s| == 1 || !IsLow(s[1]))
    ensures var more := EscapeAll(s[1..]) + "\"" + rest;
      IsHigh(s[0]) && StartsWith(more, "\\u") ==>
        Hex4Value(more[2..]).Some? && !IsLow(Hex4Value(more[2..]).value)
  {
    hide Escape, Hex4Value;
    if |s| >= 2 && IsHigh(s[0]) {
      var after := EscapeAll(s[2..]) + "\"" + rest;
      assert s[1..][1..] == s[2..];
      assert EscapeAll(s[1..]) + "\"" + rest == Escape(s[1]) + after;
      if StartsWith(Escape(s[1]) + after, "\\u") {
        EscapeAfterHigh(s[1], after);
      }
    } else if |s| == 1 {
      assert s[1..] == [];
      assert (EscapeAll([]) + "\"" + rest)[0] == '\"';
    }
  }

  lemma EscapeNothing(rest: string)
    ensures EscapeAll([]) + "\"" + rest == "\"" + rest
  {
  }

  lemma EscapeCons(s: Text, rest: string)
    requires s != []
    ensures EscapeAll(s) + "\"" + rest == Escape(s[0]) + (EscapeAll(s[1..]) + "\"" + rest)
  {
    hide Escape;
  }

  /** The JSON scanner undoes the JSON writer, up to joining surrogate pairs. */
  lemma {:induction false} ScanOfEscape(s: Text, rest: string)
    ensures Scan(EscapeAll(s) + "\"" + rest) == Some(Scanned(Merge(s), rest))
    decreases |s|
  {
    hide Scan, Escape, Hex4Value, EscapeAll;
    if s == [] {
      EscapeNothing(rest);
      ScanEnd(rest);
    } else {
      var c, more := s[0], EscapeAll(s[1..]) + "\"" + rest;
      EscapeCons(s, rest);
      if IsPlain(c) {
        ScanOfEscape(s[1..], rest);
        ScanPlain(c, more);
      } else if c >= 0x1_0000 {
        ScanOfEscape(s[1..], rest);
        ScanAstral(c, more);
      } else if |s| >= 2 && IsHigh(c) && IsLow(s[1]) {
        var low, after := s[1], EscapeAll(s[2..]) + "\"" + rest;
        EscapeCons(s[1..], rest);
        assert s[1..][1..] == s[2..];
        EscapeUnicodeOnly(c);
        EscapeUnicodeOnly(low);
        ScanOfEscape(s[2..], rest);
        assert Escape(c) + more == UnicodeEscape(c) + UnicodeEscape(low) + after;
        ScanPair(c, low, after);
      } else {
        ScanOfEscape(s[1..], rest);
        EscapeUnicodeOnly(c);
        HighThenMore(s, rest);
        ScanUnicode(c, more);
      }
    }
  }

  lemma ScanEnd(rest: string)
    ensures Scan("\"" + rest) == Some(Scanned([], rest))
  {
    assert ("\"" + rest)[1..] == rest;
  }

  lemma ScanAstral(c: CodePoint, rest: string)
    requires c >= 0x1_0000
    ensures Scan(Escape(c) + rest) == Prepend(c, Scan(rest))
  {
    hide Scan, UnicodeEscape;
    var high, low := 0xD800 + (c - 0x1_0000) / 0x400, 0xDC00 + (c - 0x1_0000) % 0x400;
    assert c == Combine(high, low);
    ScanPair(high, low, rest);
  }

  // ----- integers -----

  function Digit(d: int): char
    requires 0 <= d < 10
  {
    "0123456789"[d]
  }

  function NatText(n: nat): (s: string)
    ensures s != ""
  {
    if n < 10 then [Digit(n)] else NatText(n / 10) + [Digit(n % 10)]
  }

  /** `str(n)`. */
  function IntText(n: int): string {
    if n < 0 then "-" + NatText(-n) else NatText(n)
  }

  predicate IsDigits(s: string) {
    s != "" && forall i :: 0 <= i < |s| ==> '0' <= s[i] <= '9'
  }

  function NatValue(s: string): nat
    requires forall i :: 0 <= i < |s| ==> '0' <= s[i] <= '9'
  {
    if s == "" then 0 else NatValue(s[..|s| - 1]) * 10 + (s[|s| - 1] as int - '0' as int)
  }

  /** `int(text)` for an optional sign and ASCII digits; any other text is not modelled as a number. */
  function ParseInt(s: string): Option<int> {
    if IsDigits(s) then Some(NatValue(s))
    else if s != "" && s[0] == '-' && IsDigits(s[1..]) then
      var magnitude: int := NatValue(s[1..]);
      Some(-magnitude)
    else if s != "" && s[0] == '+' && IsDigits(s[1..]) then Some(NatValue(s[1..]))
    else None
  }

  lemma DigitValue(d: int)
    requires 0 <= d < 10
    ensures '0' <= Digit(d) <= '9' && Digit(d) as int - '0' as int == d
  {
  }

  lemma {:induction false} NatRoundTrip(n: nat)
    ensures IsDigits(NatText(n)) && NatValue(NatText(n)) == n
  {
    hide Digit;
    DigitValue(n % 10);
    if n >= 10 {
      NatRoundTrip(n / 10);
      var front, last := NatText(n / 10), Digit(n % 10);
      assert NatText(n) == front + [last];
      assert (front + [last])[..|front|] == front;
    } else {
      assert NatText(n) == [Digit(n)] && [Digit(n)][..0] == "";
      assert NatValue("") == 0;
    }
  }

  lemma IntRoundTrip(n: int)
    ensures ParseInt(IntText(n)) == Some(n)
    ensures IntText(n)[0] == '-' || '0' <= IntText(n)[0] <= '9'
    ensures forall i :: 0 <= i < |IntText(n)| ==> IntText(n)[i] == '-' || '0' <= IntText(n)[i] <= '9'
  {
    NatRoundTrip(if n < 0 then -n else n);
    if n < 0 {
      assert IntText(n)[1..] == NatText(-n);
    }
  }

  // ----- quoted text is printable ASCII -----

  predicate IsPrintable(s: string) {
    forall i :: 0 <= i < |s| ==> ' ' <= s[i] <= '~'
  }

  lemma {:induction false} EscapeIsPrintable(s: Text)
    ensures IsPrintable(EscapeAll(s))
  {
    if s != [] {
      EscapeIsPrintable(s[1..]);
      EscapeOneIsPrintable(s[0]);
    }
  }

  lemma HexIsPrintable(n: int)
    requires 0 <= n < 0x1_0000
    ensures IsPrintable(UnicodeEscape(n))
  {
    forall d | 0 <= d < 16 ensures ' ' <= HexDigit(d) <= '~' {
      HexDigitValue(d);
    }
  }

  lemma EscapeOneIsPrintable(c: CodePoint)
    ensures IsPrintable(Escape(c))
  {
    hide UnicodeEscape;
    if c >= 0x1_0000 {
      HexIsPrintable(0xD800 + (c - 0x1_0000) / 0x400);
      HexIsPrintable(0xDC00 + (c - 0x1_0000) % 0x400);
    } else if !IsPlain(c) {
      HexIsPrintable(c);
    }
  }

  lemma QuoteShape(s: Text)
    ensures IsPrintable(Quote(s)) && IsTrim(Quote(s))
    ensures |Quote(s)| >= 2 && Quote(s)[0] == '\"' && Quote(s)[|Quote(s)| - 1] == '\"'
  {
    EscapeIsPrintable(s);
  }
}

/** Byte-budget truncation of text (config.py, `trim_tool_result_for_capture`; bundle.py, `_bounded_portable_text`). */
module Truncation {
  import opened Struct
  import opened Utf8

  /** How many leading code points fit into `budget` bytes. */
  function FitCount(s: Text, budget: nat): (k: nat)
    ensures k <= |s|
  {
    if s == [] || |EncodePoint(s[0])| > budget then 0
    else 1 + FitCount(s[1..], budget - |EncodePoint(s[0])|)
  }

  function LongestPrefix(s: Text, budget: nat): Text {
    s[..FitCount(s, budget)]
  }

  /** It is the longest prefix that fits: no prefix of more code points does. */
  lemma {:induction false} FitCountIsLongest(s: Text, budget: nat, k: nat)
    requires k <= |s|
    ensures |Encode(s[..k])| <= budget <==> k <= FitCount(s, budget)
  {
    if k > 0 {
      var e := EncodePoint(s[0]);
      assert s[..k][0] == s[0] && s[..k][1..] == s[1..][..k - 1];
      assert Encode(s[..k]) == e + Encode(s[1..][..k - 1]);
      if |e| <= budget {
        FitCountIsLongest(s[1..], budget - |e|, k - 1);
      }
    }
  }

  lemma ContinuationStartsNothing(b: bytes)
    requires b != [] && 0x80 <= b[0] < 0xC0
    ensures DecodePoint(b).None?
  {
  }

  lemma {:induction false} ContinuationsIgnored(b: bytes)
    requires forall i :: 0 <= i < |b| ==> 0x80 <= b[i] < 0xC0
    ensures DecodeIgnoring(b) == []
  {
    if b != [] {
      ContinuationStartsNothing(b);
      ContinuationsIgnored(b[1..]);
    }
  }

  lemma EncodedShape(c: CodePoint)
    ensures forall i :: 1 <= i < |EncodePoint(c)| ==> 0x80 <= EncodePoint(c)[i] < 0xC0
  {
  }

  /** A code point cut short leaves nothing behind. */
  lemma CutPointIgnored(c: CodePoint, n: nat)
    requires n < |EncodePoint(c)|
    ensures DecodeIgnoring(EncodePoint(c)[..n]) == []
  {
    if n > 0 {
      var e := EncodePoint(c);
      var cut := e[..n];
      CandidateOfEncodePoint(c);
      EncodedShape(c);
      assert cut[0] == e[0] && SequenceLength(cut[0]) > |cut|;
      assert DecodePoint(cut).None?;
      assert cut[1..] == e[1..n];
      ContinuationsIgnored(cut[1..]);
    }
  }

  lemma IgnoringStep(c: CodePoint, rest: bytes)
    requires !IsSurrogate(c)
    ensures DecodeIgnoring(EncodePoint(c) + rest) == [c] + DecodeIgnoring(rest)
  {
    hide EncodePoint;
    DecodePointOfEncodePoint(c, rest);
    var b := EncodePoint(c) + rest;
    assert b[|EncodePoint(c)|..] == rest;
  }

  lemma PrefixStep(c: CodePoint, rest: Text, budget: nat)
    ensures LongestPrefix([c] + rest, budget) ==
      if |EncodePoint(c)| <= budget then [c] + LongestPrefix(rest, budget - |EncodePoint(c)|) else []
  {
    hide EncodePoint;
    assert ([c] + rest)[1..] == rest;
  }

  lemma EncodeStep(c: CodePoint, rest: Text)
    ensures Encode([c] + rest) == EncodePoint(c) + Encode(rest)
  {
    hide EncodePoint;
    assert ([c] + rest)[1..] == rest;
  }

  /** Cutting an encoded text at any byte and decoding leniently gives its longest prefix that fits. */
  lemma {:induction false} CutIsLongestPrefix(s: Text, n: nat)
    requires Encodable(s) && n <= |Encode(s)|
    ensures DecodeIgnoring(Encode(s)[..n]) == LongestPrefix(s, n)
  {
    if s != [] {
      hide EncodePoint, DecodeIgnoring, Encode, LongestPrefix;
      var c, tail := s[0], s[1..];
      var e, rest := EncodePoint(c), Encode(tail);
      assert s == [c] + tail;
      EncodeStep(c, tail);
      PrefixStep(c, tail, n);
      if |e| <= n {
        assert (e + rest)[..n] == e + rest[..n - |e|];
        IgnoringStep(c, rest[..n - |e|]);
        CutIsLongestPrefix(tail, n - |e|);
      } else {
        assert (e + rest)[..n] == e[..n];
        CutPointIgnored(c, n);
      }
    } else {
      assert Encode(s)[..n] == [];
    }
  }

  // ----- captured tool results -----

  datatype Policy = Skip | Truncate | TruncateWithNotice

  datatype Stored = Stored(text: Text, truncated: bool, skipped: bool, storedBytes: nat)

  /** What is stored of `text` under a byte limit; the notice goes behind what is left of the text. */
  function Trimmed(text: Text, limit: nat, policy: Policy, notice: Text): Stored {
    if |Encode(text)| <= limit then Stored(text, false, false, |Encode(text)|)
    else if policy == Skip then Stored([], true, true, 0)
    else
      var kept :=
        if policy == Truncate then LongestPrefix(text, limit)
        else if limit <= |Encode(notice)| then LongestPrefix(notice, limit)
        else LongestPrefix(text, limit - |Encode(notice)|) + notice;
      Stored(kept, true, false, |Encode(kept)|)
  }

  /**
   `trim_tool_result_for_capture`; `None` for the UnicodeEncodeError of a text with surrogates.
   `shrinks` counts the turns of the loops that would shorten the stored text.
   */
  method TrimToolResult(text: Text, limit: nat, policy: Policy, notice: Text)
    returns (stored: Option<Stored>, shrinks: nat)
    requires Encodable(notice)
    ensures stored.None? <==> !Encodable(text)
    ensures stored.Some? ==> stored.value == Trimmed(text, limit, policy, notice)
    ensures shrinks == 0
  {
    hide Encode, DecodeIgnoring, FitCount;
    shrinks := 0;
    if !Encodable(text) {
      return None, shrinks;
    }
    var encoded := Encode(text);
    if |encoded| <= limit {
      return Some(Stored(text, false, false, |encoded|)), shrinks;
    }
    if policy == Skip {
      return Some(Stored([], true, true, 0)), shrinks;
    }
    var kept: Text;
    var suffix := Encode(notice);
    if policy == Truncate {
      kept := DecodeIgnoring(encoded[..limit]);
      CutIsLongestPrefix(text, limit);
      PrefixFits(text, limit);
    } else if limit <= |suffix| {
      kept := DecodeIgnoring(suffix[..limit]);
      CutIsLongestPrefix(notice, limit);
      PrefixFits(notice, limit);
    } else {
      kept := DecodeIgnoring(encoded[..limit - |suffix|]) + notice;
      CutIsLongestPrefix(text, limit - |suffix|);
      PrefixFits(text, limit - |suffix|);
      EncodeAppend(LongestPrefix(text, limit - |suffix|), notice);
    }
    assert |Encode(kept)| <= limit;
    kept, shrinks := ShrinkToFit(kept, limit);
    assert kept == Trimmed(text, limit, policy, notice).text;
    return Some(Stored(kept, true, false, |Encode(kept)|)), shrinks;
  }

  /** The loop that drops code points from the end until the text fits; it counts its turns. */
  method ShrinkToFit(text: Text, limit: nat) returns (stored: Text, shrinks: nat)
    ensures stored == LongestPrefix(text, limit)
    ensures shrinks == |text| - |stored|
    ensures |Encode(text)| <= limit ==> shrinks == 0 && stored == text
  {
    hide Encode, FitCount;
    stored, shrinks := text, 0;
    assert text[..|text|] == text;
    FitCountIsLongest(text, limit, |text|);
    while |Encode(stored)| > limit
      invariant shrinks <= |text| && stored == text[..|text| - shrinks] && FitCount(text, limit) <= |stored|
      decreases |stored|
    {
      FitCountIsLongest(text, limit, |stored|);
      stored := stored[..|stored| - 1];
      shrinks := shrinks + 1;
    }
    FitCountIsLongest(text, limit, |stored|);
  }

  lemma PrefixFits(s: Text, budget: nat)
    ensures |Encode(LongestPrefix(s, budget))| <= budget
  {
    FitCountIsLongest(s, budget, FitCount(s, budget));
  }

  /** Whatever the policy, what is stored stays within the limit. */
  lemma TrimmedFits(text: Text, limit: nat, policy: Policy, notice: Text)
    ensures var s := Trimmed(text, limit, policy, notice);
      s.storedBytes == |Encode(s.text)| <= limit
  {
    hide Encode, FitCount;
    if |Encode(text)| > limit {
      PrefixFits(text, limit);
      PrefixFits(notice, limit);
      if limit > |Encode(notice)| {
        PrefixFits(text, limit - |Encode(notice)|);
        EncodeAppend(LongestPrefix(text, limit - |Encode(notice)|), notice);
      }
      assert Encode([]) == [] by { EmptyEncodes(); }
    }
  }

  lemma EmptyEncodes()
    ensures Encode([]) == []
  {
  }

  // ----- bounded metadata text -----

  /** `_bounded_portable_text` with its marker given; the marker is ASCII. */
  function BoundedPortableText(text: Text, limit: nat, marker: Text): Text {
    if |Encode(text)| <= limit then text
    else DecodeIgnoring(Encode(text)[..if limit > |marker| then limit - |marker| else 0]) + marker
  }

  /** The bound holds exactly when the text needs no cut or the marker itself fits. */
  lemma BoundedTextFits(text: Text, limit: nat, marker: Text)
    requires Encodable(text) && IsAscii(marker)
    ensures |Encode(BoundedPortableText(text, limit, marker))| <= limit <==>
      |Encode(text)| <= limit || |marker| <= limit
    ensures |Encode(text)| > limit ==>
      BoundedPortableText(text, limit, marker) ==
        LongestPrefix(text, if limit > |marker| then limit - |marker| else 0) + marker
  {
    hide Encode, DecodeIgnoring, FitCount;
    if |Encode(text)| > limit {
      var budget := if limit > |marker| then limit - |marker| else 0;
      CutIsLongestPrefix(text, budget);
      PrefixFits(text, budget);
      EncodeAscii(marker);
      EncodeAppend(LongestPrefix(text, budget), marker);
    }
  }
}

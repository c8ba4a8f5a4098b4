/** From text to text: the round trip, when it is the identity, and that printing loses nothing. */
module YamlTheorem {
  import opened Utf8
  import opened YamlText
  import opened Yaml
  import opened YamlParse
  import opened YamlRoundTrip

  // ----- lines of a joined text -----

  ghost predicate AllClean(lines: seq<Line>) {
    forall i :: 0 <= i < |lines| ==> IsClean(lines[i].content)
  }

  lemma {:induction false} SplitPiece(s: string)
    requires NoBreaks(s)
    ensures SplitLines(s) == [s]
  {
    if s != "" {
      assert NoBreaks(s[1..]);
      SplitPiece(s[1..]);
      assert [s[0]] + s[1..] == s;
    }
  }

  lemma {:induction false} SplitAtBreak(s: string, rest: string)
    requires NoBreaks(s)
    ensures SplitLines(s + "\n" + rest) == [s] + SplitLines(rest)
  {
    hide IsLineBreak;
    if s == "" {
      assert s + "\n" + rest == "\n" + rest && ("\n" + rest)[1..] == rest;
      NewlineBreaks();
    } else {
      var tail := s[1..];
      assert NoBreaks(tail);
      assert (s + "\n" + rest)[1..] == tail + "\n" + rest;
      SplitAtBreak(tail, rest);
      var pieces := [tail] + SplitLines(rest);
      assert [s[0]] + tail == s && pieces[1..] == SplitLines(rest);
    }
  }

  lemma NewlineBreaks()
    ensures IsLineBreak('\n')
  {
  }

  lemma {:induction false} SplitOfJoin(pieces: seq<string>)
    requires pieces != [] && forall i :: 0 <= i < |pieces| ==> NoBreaks(pieces[i])
    ensures SplitLines(Join(pieces)) == pieces
  {
    hide NoBreaks;
    if |pieces| == 1 {
      SplitPiece(pieces[0]);
    } else {
      SplitOfJoin(pieces[1..]);
      SplitAtBreak(pieces[0], Join(pieces[1..]));
    }
  }

  lemma {:induction false} IndentBack(n: nat, content: string)
    requires IsTrim(content)
    ensures LeadingSpaces(Spaces(n) + content) == n
    ensures LStrip(Spaces(n) + content) == content
  {
    var s := Spaces(n) + content;
    if n == 0 {
      assert s == content;
      StripTrim(content);
    } else {
      assert s[0] == ' ' && s[1..] == Spaces(n - 1) + content;
      IndentBack(n - 1, content);
    }
  }

  lemma RenderedLine(line: Line)
    requires IsClean(line.content)
    ensures var piece := Spaces(line.indent) + line.content;
      NoBreaks(piece) && Strip(piece) == line.content && LeadingSpaces(piece) == line.indent
  {
    IndentBack(line.indent, line.content);
    StripTrim(line.content);
  }

  lemma {:induction false} LinesOfRender(lines: seq<Line>)
    requires AllClean(lines)
    ensures LinesOf(Render(lines)) == lines
  {
    hide Strip, LeadingSpaces, IsClean;
    if lines != [] {
      assert AllClean(lines[1..]);
      LinesOfRender(lines[1..]);
      RenderedLine(lines[0]);
      CleanIsSomething(lines[0].content);
      assert Render(lines)[1..] == Render(lines[1..]);
      assert [lines[0]] + lines[1..] == lines;
    }
  }

  lemma CleanIsSomething(s: string)
    requires IsClean(s)
    ensures s != ""
  {
  }

  lemma YamlLinesOfDump(lines: seq<Line>)
    requires lines != [] && AllClean(lines)
    ensures YamlLines(Join(Render(lines))) == lines
  {
    hide IsClean, Join, NoBreaks, Strip, LeadingSpaces;
    forall i | 0 <= i < |lines| ensures NoBreaks(Render(lines)[i]) {
      RenderedLine(lines[i]);
    }
    SplitOfJoin(Render(lines));
    LinesOfRender(lines);
  }

  lemma CleanAppend(a: seq<Line>, b: seq<Line>)
    requires AllClean(a) && AllClean(b)
    ensures AllClean(a + b)
  {
  }

  lemma {:induction false} BlockClean(t: Letters, v: Value, indent: nat)
    requires t.Valid() && Dumpable(v)
    ensures AllClean(BlockLines(t, v, indent))
    decreases v, 1
  {
    hide InlineText, EntryLines, ItemLines, IsClean;
    if !IsContainer(v) || IsEmptyContainer(v) {
      InlineBack(v);
    } else if v.Map? {
      EntriesClean(t, v.entries, indent);
    } else {
      ItemsClean(t, v.items, indent);
    }
  }

  lemma {:induction false} EntriesClean(t: Letters, entries: seq<Entry>, indent: nat)
    requires t.Valid() && forall e :: e in entries ==> Dumpable(e.value)
    ensures AllClean(EntryLines(t, entries, indent))
    decreases entries, 0
  {
    hide InlineText, KeyText, BlockLines, IsClean, IsItemLine;
    if entries != [] {
      var e := entries[0];
      var k := KeyText(t, e.key);
      EntriesClean(t, entries[1..], indent);
      if IsContainer(e.value) && !IsEmptyContainer(e.value) {
        KeyLineShape(t, e.key, "");
        assert k + ":" + "" == k + ":";
        BlockClean(t, e.value, indent + 2);
        CleanAppend([Line(indent, k + ":")], BlockLines(t, e.value, indent + 2));
      } else {
        var text := InlineText(e.value);
        InlineBack(e.value);
        CleanIsSomething(text);
        assert (" " + text)[1..] == text && k + ":" + (" " + text) == k + ": " + text;
        KeyLineShape(t, e.key, " " + text);
      }
      CleanAppend(OneEntryLines(t, e, indent), EntryLines(t, entries[1..], indent));
    }
  }

  lemma {:induction false} ItemsClean(t: Letters, items: seq<Value>, indent: nat)
    requires t.Valid() && forall x :: x in items ==> Dumpable(x)
    ensures AllClean(ItemLines(t, items, indent))
    decreases items, 0
  {
    hide ScalarText, BlockLines;
    if items != [] {
      var v := items[0];
      ItemsClean(t, items[1..], indent);
      if IsContainer(v) {
        BlockClean(t, v, indent + 2);
        CleanAppend([Line(indent, "-")], BlockLines(t, v, indent + 2));
      } else {
        InlineBack(v);
        DashClean(ScalarText(v));
      }
      CleanAppend(OneItemLines(t, v, indent), ItemLines(t, items[1..], indent));
    }
  }

  lemma DashClean(text: string)
    requires IsClean(text)
    ensures IsClean("- " + text)
  {
    var s := "- " + text;
    assert s[|s| - 1] == text[|text| - 1];
    forall i | 0 <= i < |s| ensures !IsLineBreak(s[i]) {
      if i >= 2 {
        assert s[i] == text[i - 2];
      }
    }
  }

  // ----- the theorems -----

  lemma SingleLine(t: Letters, v: Value, indent: nat)
    requires t.Valid() && IsContainer(v) && Dumpable(v)
    requires |BlockLines(t, v, indent)| == 1 && v != Map([]) && v != List([])
    ensures var content := BlockLines(t, v, indent)[0].content;
      content == "-" || StartsWith(content, "- ") || ':' in content
  {
    hide ScalarText, InlineText, KeyText, EntryLines, ItemLines;
    if v.Map? {
      KeyLineColon(t, v.entries, indent);
    } else {
      FirstItemLine(t, v.items, indent);
    }
  }

  lemma KeyLineColon(t: Letters, entries: seq<Entry>, indent: nat)
    requires entries != []
    ensures ':' in EntryLines(t, entries, indent)[0].content
  {
    hide InlineText, KeyText, BlockLines;
    var e := entries[0];
    var content := OneEntryLines(t, e, indent)[0].content;
    var k := KeyText(t, e.key);
    assert content == k + ":" || content == k + ": " + InlineText(e.value);
    assert content[|k|] == ':';
  }

  /** Every container, dumped at any indentation and loaded, comes back up to joined surrogate pairs. */
  lemma LoadOfDump(t: Letters, v: Value, indent: nat)
    requires t.Valid() && IsContainer(v) && Dumpable(v)
    ensures Load(Dump(t, v, indent)) == Ok(Norm(v))
  {
    hide EntryLines, ItemLines, YamlLines, Join, Render, ParseEntries, ParseItems, IsClean;
    var lines := BlockLines(t, v, indent);
    BlockClean(t, v, indent);
    YamlLinesOfDump(lines);
    BlockStart(t, v, indent);
    assert lines[0..|lines|] == lines;
    BlockBack(t, v, lines, 0, indent);
    if v == List([]) {
      InlineBack(v);
    } else if |lines| == 1 && v != Map([]) {
      SingleLine(t, v, indent);
    }
  }

  lemma BlockStart(t: Letters, v: Value, indent: nat)
    requires t.Valid() && IsContainer(v) && Dumpable(v)
    ensures BlockLines(t, v, indent)[0].indent == indent
  {
    hide EntryLines, ItemLines;
    if v.Map? && v.entries != [] {
      FirstEntryLine(t, v.entries, indent);
    } else if v.List? && v.items != [] {
      FirstItemLine(t, v.items, indent);
    }
  }

  lemma {:induction false} ColonSurvives(s: Text)
    ensures ':' in EscapeAll(s) <==> 0x3A in s
  {
    hide Escape;
    if s != [] {
      ColonOfEscape(s[0]);
      ColonSurvives(s[1..]);
      assert EscapeAll(s) == Escape(s[0]) + EscapeAll(s[1..]);
    }
  }

  lemma ColonOfEscape(c: CodePoint)
    ensures ':' in Escape(c) <==> c == 0x3A
  {
    hide UnicodeEscape;
    if !IsPlain(c) {
      if c < 0x1_0000 {
        NoColonInUnicode(c);
      } else {
        NoColonInUnicode(0xD800 + (c - 0x1_0000) / 0x400);
        NoColonInUnicode(0xDC00 + (c - 0x1_0000) % 0x400);
      }
    }
  }

  lemma NoColonInUnicode(n: int)
    requires 0 <= n < 0x1_0000
    ensures ':' !in UnicodeEscape(n)
  {
    forall d | 0 <= d < 16 ensures HexDigit(d) != ':' {
      HexDigitValue(d);
    }
  }

  lemma QuotedIsNoKey(s: Text)
    ensures SplitKeyValue(Quote(s)) == Err
    ensures !IsItemLine(Quote(s)) && Quote(s) != "{}" && Quote(s) != "[]" && Quote(s) != "-" &&
      !StartsWith(Quote(s), "- ")
  {
    hide Scan, EscapeAll, IsTrim, Strip;
    var q := Quote(s);
    QuoteShape(s);
    StripTrim(q);
    ScanOfEscape(s, "");
    assert q[1..] == EscapeAll(s) + "\"" + "";
    assert q[0] == '\"' && StartsWith(q, "\"");
  }

  lemma LoadQuoted(content: string, s: Text)
    requires content == Quote(s)
    ensures ParseBlock([Line(0, content)], 0, 0) == Err
  {
    hide SplitKeyValue, Quote;
    QuotedIsNoKey(s);
  }

  /**
   A bare scalar at top level survives unless it is a string holding a colon: its single line
   is then taken for a mapping entry, and the load fails.
   */
  lemma ScalarLoadOfDump(t: Letters, v: Value)
    requires t.Valid() && !IsContainer(v) && Dumpable(v)
    ensures Load(Dump(t, v, 0)) == if v.Str? && 0x3A in v.s then Err else Ok(Norm(v))
  {
    hide YamlLines, Join, Render, ParseBlock, ParseScalar, IsClean, IsTrim, EscapeAll;
    var content := InlineText(v);
    BlockClean(t, v, 0);
    YamlLinesOfDump(BlockLines(t, v, 0));
    InlineBack(v);
    assert BlockLines(t, v, 0) == [Line(0, content)];
    if v.Str? {
      ColonSurvives(v.s);
      assert ':' in content <==> ':' in EscapeAll(v.s);
      QuotedIsNoKey(v.s);
      LoadQuoted(content, v.s);
    } else {
      NoColonInWords(v);
    }
  }

  lemma NoColonInWords(v: Value)
    requires v.Null? || v.Bool? || v.Int?
    ensures ':' !in ScalarText(v) && ScalarText(v) != "{}"
  {
    if v.Int? {
      IntRoundTrip(v.n);
    }
  }

  // ----- when the round trip is the identity -----

  ghost predicate HasPair(v: Value)
    decreases v, 0
  {
    match v
    case Str(s) => HasSurrogatePair(s)
    case List(items) => exists x :: x in items && HasPair(x)
    case Map(entries) => exists e :: e in entries && (HasSurrogatePair(e.key) || HasPair(e.value))
    case _ => false
  }

  /** The keys of a Python dict are distinct, at every level. */
  ghost predicate IsDict(v: Value)
    decreases v, 0
  {
    match v
    case List(items) => forall x :: x in items ==> IsDict(x)
    case Map(entries) =>
      && (forall i, j :: 0 <= i < j < |entries| ==> entries[i].key != entries[j].key)
      && forall e :: e in entries ==> IsDict(e.value)
    case _ => true
  }

  lemma {:induction false} DictSetFresh(m: seq<Entry>, key: Text, value: Value)
    ensures |DictSet(m, key, value)| == |m| + 1 ==> DictSet(m, key, value) == m + [Entry(key, value)]
    ensures (forall e :: e in m ==> e.key != key) ==> DictSet(m, key, value) == m + [Entry(key, value)]
  {
    if m != [] {
      DictSetFresh(m[1..], key, value);
      assert m == [m[0]] + m[1..];
    }
  }

  ghost function NormEach(entries: seq<Entry>): (r: seq<Entry>)
    ensures |r| == |entries|
  {
    if entries == [] then []
    else [Entry(Merge(entries[0].key), Norm(entries[0].value))] + NormEach(entries[1..])
  }

  /** Merging keys can only lose entries; if none is lost, the dict is the list of images in order. */
  lemma {:induction false} NormEntriesFull(entries: seq<Entry>, mapping: seq<Entry>)
    ensures |NormEntries(entries, mapping)| <= |mapping| + |entries|
    ensures |NormEntries(entries, mapping)| == |mapping| + |entries| ==>
      NormEntries(entries, mapping) == mapping + NormEach(entries)
    decreases |entries|
  {
    hide Norm, DictSet;
    if entries == [] {
      assert mapping + [] == mapping;
    } else {
      var k, v := Merge(entries[0].key), Norm(entries[0].value);
      DictSetFresh(mapping, k, v);
      NormEntriesFull(entries[1..], DictSet(mapping, k, v));
      assert mapping + [Entry(k, v)] + NormEach(entries[1..]) == mapping + NormEach(entries);
    }
  }

  lemma {:induction false} NormEntriesDistinct(entries: seq<Entry>, mapping: seq<Entry>)
    requires forall i :: 0 <= i < |entries| ==> Merge(entries[i].key) == entries[i].key
    requires forall i, j :: 0 <= i < j < |entries| ==> entries[i].key != entries[j].key
    requires forall e, i :: e in mapping && 0 <= i < |entries| ==> e.key != entries[i].key
    ensures NormEntries(entries, mapping) == mapping + NormEach(entries)
    decreases |entries|
  {
    hide Norm, DictSet;
    if entries == [] {
      assert mapping + [] == mapping;
    } else {
      var k, v := entries[0].key, Norm(entries[0].value);
      assert Merge(k) == k;
      forall e | e in mapping ensures e.key != k {
        assert e.key != entries[0].key;
      }
      DictSetFresh(mapping, k, v);
      var rest := entries[1..];
      assert forall i :: 0 <= i < |rest| ==> rest[i] == entries[i + 1];
      NormEntriesDistinct(rest, mapping + [Entry(k, v)]);
      assert NormEach(entries) == [Entry(k, v)] + NormEach(rest);
      assert mapping + [Entry(k, v)] + NormEach(rest) == mapping + ([Entry(k, v)] + NormEach(rest));
    }
  }

  lemma {:induction false} NormEachAt(entries: seq<Entry>, i: nat)
    requires i < |entries|
    ensures NormEach(entries)[i] == Entry(Merge(entries[i].key), Norm(entries[i].value))
  {
    hide Norm;
    if i > 0 {
      NormEachAt(entries[1..], i - 1);
    }
  }

  lemma {:induction false} NormItemsAt(items: seq<Value>, i: nat)
    requires i < |items|
    ensures NormItems(items)[i] == Norm(items[i])
  {
    hide Norm;
    if i > 0 {
      NormItemsAt(items[1..], i - 1);
    }
  }

  /** The round trip is the identity exactly on values without a high-low surrogate pair in any text. */
  lemma {:induction false} NormIsIdentity(v: Value)
    requires IsDict(v)
    ensures Norm(v) == v <==> !HasPair(v)
    decreases v
  {
    hide NormItems, NormEntries, Merge, HasSurrogatePair;
    match v {
      case Str(s) => MergeChangesPairs(s);
      case List(items) =>
        forall i | 0 <= i < |items| ensures NormItems(items)[i] == items[i] <==> !HasPair(items[i]) {
          NormItemsAt(items, i);
          assert items[i] in items;
          NormIsIdentity(items[i]);
        }
      case Map(entries) => NormMapIdentity(entries);
      case _ =>
    }
  }

  lemma {:induction false} NormMapIdentity(entries: seq<Entry>)
    requires IsDict(Map(entries))
    ensures NormEntries(entries, []) == entries <==> !HasPair(Map(entries))
    decreases entries
  {
    hide NormItems, NormEntries, Merge, HasSurrogatePair, Norm, NormEach;
    forall i | 0 <= i < |entries|
      ensures NormEach(entries)[i] == entries[i] <==>
        !HasSurrogatePair(entries[i].key) && !HasPair(entries[i].value)
    {
      NormEachAt(entries, i);
      assert entries[i] in entries;
      MergeChangesPairs(entries[i].key);
      NormIsIdentity(entries[i].value);
    }
    NormEntriesFull(entries, []);
    assert [] + NormEach(entries) == NormEach(entries);
    if !HasPair(Map(entries)) {
      forall i | 0 <= i < |entries| ensures Merge(entries[i].key) == entries[i].key {
        assert entries[i] in entries;
        MergeChangesPairs(entries[i].key);
      }
      NormEntriesDistinct(entries, []);
    }
  }

  /** The round trip, exactly: a container is read back as itself if and only if no text has such a pair. */
  lemma RoundTrip(t: Letters, v: Value, indent: nat)
    requires t.Valid() && IsContainer(v) && Dumpable(v) && IsDict(v)
    ensures Load(Dump(t, v, indent)) == Ok(v) <==> !HasPair(v)
  {
    hide Load, Dump, HasPair, Norm;
    LoadOfDump(t, v, indent);
    NormIsIdentity(v);
  }

  /** Hence different values never print alike. */
  lemma DumpIsInjective(t: Letters, v: Value, w: Value, indent: nat)
    requires t.Valid()
    requires IsContainer(v) && Dumpable(v) && IsDict(v) && !HasPair(v)
    requires IsContainer(w) && Dumpable(w) && IsDict(w) && !HasPair(w)
    requires Dump(t, v, indent) == Dump(t, w, indent)
    ensures v == w
  {
    hide Load, Dump, HasPair;
    RoundTrip(t, v, indent);
    RoundTrip(t, w, indent);
  }

  // ----- the written file -----

  /** `dump_yaml(payload).rstrip() + "\n"`. */
  function WrittenText(t: Letters, v: Value): string {
    RStrip(Dump(t, v, 0)) + "\n"
  }

  lemma {:induction false} SplitEndingNewline(text: string)
    ensures SplitLines(text + "\n") == SplitLines(text) + [""]
  {
    if text == "" {
      assert ("" + "\n")[1..] == "";
      NewlineBreaks();
    } else {
      assert (text + "\n")[1..] == text[1..] + "\n";
      SplitEndingNewline(text[1..]);
    }
  }

  lemma {:induction false} LinesOfBlankEnd(pieces: seq<string>)
    ensures LinesOf(pieces + [""]) == LinesOf(pieces)
  {
    hide Strip, LeadingSpaces;
    StripNothing();
    if pieces == [] {
      assert pieces + [""] == [""] && [""][1..] == [];
    } else {
      assert (pieces + [""])[1..] == pieces[1..] + [""];
      LinesOfBlankEnd(pieces[1..]);
    }
  }

  lemma {:induction false} JoinEnd(lines: seq<Line>)
    requires lines != [] && AllClean(lines)
    ensures var text := Join(Render(lines)); text != "" && !IsSpace(text[|text| - 1])
  {
    hide IsSpace;
    var pieces := Render(lines);
    if |lines| == 1 {
      var c := lines[0].content;
      assert pieces[0][|pieces[0]| - 1] == c[|c| - 1];
    } else {
      assert AllClean(lines[1..]);
      JoinEnd(lines[1..]);
      assert pieces[1..] == Render(lines[1..]);
      var rest := Join(pieces[1..]);
      var text := pieces[0] + "\n" + rest;
      assert text[|text| - 1] == rest[|rest| - 1];
    }
  }

  /** What `write_atomic_yaml` puts into a file loads like the dump itself. */
  lemma LoadOfWritten(t: Letters, v: Value)
    requires t.Valid() && IsContainer(v) && Dumpable(v)
    ensures Load(WrittenText(t, v)) == Ok(Norm(v))
  {
    hide Norm, BlockLines, LinesOf, SplitLines, ParseBlock, ParseScalar, Join, Render;
    var text := Dump(t, v, 0);
    LoadOfDump(t, v, 0);
    BlockClean(t, v, 0);
    JoinEnd(BlockLines(t, v, 0));
    assert RStrip(text) == text;
    SplitEndingNewline(text);
    LinesOfBlankEnd(SplitLines(text));
  }
}

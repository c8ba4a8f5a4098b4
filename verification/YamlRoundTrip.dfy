/** Loading what was dumped: the theorem of the atomic YAML subset. */
module YamlRoundTrip {
  import opened Utf8
  import opened YamlText
  import opened Yaml
  import opened YamlParse

  /** Only values the printer spells in this model: no token standing for a float. */
  predicate Dumpable(v: Value)
    decreases v, 0
  {
    match v
    case Unquoted(_) => false
    case List(items) => forall x :: x in items ==> Dumpable(x)
    case Map(entries) => forall e :: e in entries ==> Dumpable(e.value)
    case _ => true
  }

  /** What a dump followed by a load yields: surrogate pairs joined, and keys that then meet merged. */
  function Norm(v: Value): Value
    decreases v, 1
  {
    match v
    case Str(s) => Str(Merge(s))
    case List(items) => List(NormItems(items))
    case Map(entries) => Map(NormEntries(entries, []))
    case _ => v
  }

  function NormItems(items: seq<Value>): (r: seq<Value>)
    ensures |r| == |items|
    decreases items, 0
  {
    if items == [] then [] else [Norm(items[0])] + NormItems(items[1..])
  }

  function NormEntries(entries: seq<Entry>, mapping: seq<Entry>): seq<Entry>
    decreases entries, 0
  {
    if entries == [] then mapping
    else NormEntries(entries[1..], DictSet(mapping, Merge(entries[0].key), Norm(entries[0].value)))
  }

  // ----- scalars and keys -----

  predicate NoBreaks(s: string) {
    forall i :: 0 <= i < |s| ==> !IsLineBreak(s[i])
  }

  predicate IsClean(content: string) {
    IsTrim(content) && NoBreaks(content)
  }

  lemma PrintableIsClean(s: string)
    requires IsPrintable(s) && s != "" && s[0] != ' ' && s[|s| - 1] != ' '
    ensures IsClean(s)
  {
  }

  lemma QuoteBack(s: Text)
    ensures IsClean(Quote(s))
    ensures LoadsString(Quote(s)) == Ok(Merge(s))
    ensures ParseScalar(Quote(s)) == Ok(Str(Merge(s)))
  {
    hide Scan, EscapeAll, Merge, IsTrim, Strip;
    QuoteShape(s);
    PrintableIsClean(Quote(s));
    StripTrim(Quote(s));
    ScanOfEscape(s, "");
    assert Quote(s)[1..] == EscapeAll(s) + "\"" + "";
    var q := Quote(s);
    assert q[0] == '\"' && StartsWith(q, "\"");
    assert q != "null" && q != "true" && q != "false" && q != "{}" && q != "[]";
  }

  lemma IntBack(n: int)
    ensures IsClean(IntText(n))
    ensures ParseScalar(IntText(n)) == Ok(Int(n))
  {
    hide NatText, ParseInt, Strip;
    IntRoundTrip(n);
    var s := IntText(n);
    PrintableIsClean(s);
    StripTrim(s);
    assert s[0] != 'n' && s[0] != 't' && s[0] != 'f' && s[0] != '{' && s[0] != '[' && s[0] != '\"' && s[0] != '\'';
    assert s != "null" && s != "true" && s != "false" && s != "{}" && s != "[]";
    assert !StartsWith(s, "\"") && !StartsWith(s, "'");
  }

  lemma InlineBack(v: Value)
    requires Dumpable(v) && (!IsContainer(v) || IsEmptyContainer(v))
    ensures IsClean(InlineText(v))
    ensures ParseScalar(InlineText(v)) == Ok(Norm(v))
    ensures InlineText(v) != "-" && !StartsWith(InlineText(v), "- ")
  {
    hide Strip, IsTrim, Scan, ParseInt;
    if v.Str? {
      QuoteBack(v.s);
      QuoteShape(v.s);
    } else if v.Int? {
      IntBack(v.n);
      IntNotItem(v.n);
    } else if !v.Unquoted? {
      WordIsTrim(InlineText(v));
      StripTrim(InlineText(v));
      assert NormItems([]) == [] && NormEntries([], []) == [];
    }
  }

  lemma WordIsTrim(s: string)
    requires s in {"null", "true", "false", "{}", "[]"}
    ensures IsTrim(s) && NoBreaks(s)
  {
  }

  lemma IntNotItem(n: int)
    ensures IntText(n) != "-" && !StartsWith(IntText(n), "- ")
  {
    IntRoundTrip(n);
    NatRoundTrip(if n < 0 then -n else n);
    var s := IntText(n);
    assert |s| > 1 ==> s[1] != ' ';
  }

  predicate IsKeyTail(rest: string) {
    rest == "" || (|rest| >= 2 && rest[0] == ' ' && IsClean(rest[1..]))
  }

  lemma PlainKeyChars(t: Letters, key: Text)
    requires t.Valid() && IsPlainKey(t, key)
    ensures var s := PlainText(key);
      && s != "" && IsClean(s) && ':' !in s && CodePoints(s) == key
      && s[0] != '-' && s[0] != '\"' && s[0] != '\'' && s[0] != '{' && s[0] != '['
    ensures !HasSurrogatePair(key)
  {
    var s := PlainText(key);
    forall i | 0 <= i < |s| ensures !IsSpace(s[i]) && !IsLineBreak(s[i]) && s[i] != ':' {
      assert s[i] == key[i] as char;
    }
  }

  /** The shape of a key line. */
  lemma KeyLineShape(t: Letters, key: Text, rest: string)
    requires t.Valid() && IsKeyTail(rest)
    ensures var content := KeyText(t, key) + ":" + rest;
      && IsClean(content) && !IsItemLine(content) && ':' in content
      && content != "{}" && content != "[]" && content != "-" && !StartsWith(content, "- ")
  {
    hide Quote;
    var k := KeyText(t, key);
    var content := k + ":" + rest;
    if IsPlainKey(t, key) {
      PlainKeyChars(t, key);
    } else {
      QuoteShape(key);
      PrintableIsClean(k);
    }
    assert content[0] == k[0] && content[|k|] == ':';
    assert content[|content| - 1] == if rest == "" then ':' else rest[|rest| - 1];
    forall i | 0 <= i < |content| ensures !IsLineBreak(content[i]) {
      if i < |k| {
        assert content[i] == k[i];
      } else if i > |k| {
        assert content[i] == rest[i - |k| - 1];
        if i > |k| + 1 {
          assert rest[i - |k| - 1] == rest[1..][i - |k| - 2];
        }
      }
    }
    if rest != "" {
      assert rest[|rest| - 1] == rest[1..][|rest| - 2];
    }
  }

  lemma {:induction false} FindColonAt(s: string, rest: string)
    requires ':' !in s
    ensures FindColon(s + ":" + rest) == |s|
  {
    var content := s + ":" + rest;
    assert content[|s|] == ':';
    assert forall j :: 0 <= j < |s| ==> content[j] == s[j];
  }

  lemma PlainKeyBack(t: Letters, key: Text, rest: string)
    requires t.Valid() && IsKeyTail(rest) && IsPlainKey(t, key)
    ensures SplitKeyValue(KeyText(t, key) + ":" + rest) == Ok((KeyText(t, key), rest))
    ensures ParseKey(KeyText(t, key)) == Ok(Merge(key))
  {
    hide Scan, IsTrim, Strip, Merge;
    var k, content := PlainText(key), PlainText(key) + ":" + rest;
    PlainKeyChars(t, key);
    KeyLineShape(t, key, rest);
    StripTrim(content);
    StripTrim(k);
    FindColonAt(k, rest);
    assert content[0] == k[0];
    assert content[..|k|] == k && content[|k| + 1..] == rest;
    MergeChangesPairs(key);
  }

  lemma QuotedKeyBack(t: Letters, key: Text, rest: string)
    requires t.Valid() && IsKeyTail(rest) && !IsPlainKey(t, key)
    ensures SplitKeyValue(KeyText(t, key) + ":" + rest) == Ok((KeyText(t, key), rest))
    ensures ParseKey(KeyText(t, key)) == Ok(Merge(key))
  {
    QuotedKeyLine(t, key, rest);
    QuoteBack(key);
    QuoteShape(key);
    StripTrim(Quote(key));
    assert KeyText(t, key) == Quote(key);
    hide *;
    ParseQuoted(Quote(key));
  }

  lemma ParseQuoted(k: string)
    requires Strip(k) == k && k != [] && k[0] == '\"'
    ensures ParseKey(k) == LoadsString(k)
  {
    hide Strip, LoadsString;
    assert StartsWith(k, "\"");
  }

  lemma QuotedKeyLine(t: Letters, key: Text, rest: string)
    requires t.Valid() && IsKeyTail(rest) && !IsPlainKey(t, key)
    ensures SplitKeyValue(KeyText(t, key) + ":" + rest) == Ok((KeyText(t, key), rest))
  {
    assert KeyText(t, key) == Quote(key);
    KeyLineShape(t, key, rest);
    QuoteTail(key, rest);
    LStripColon(rest);
    ScanOfEscape(key, ":" + rest);
    KeyLineIsTrim(t, key, rest);
    hide *;
    var content := Quote(key) + ":" + rest;
    StripTrim(content);
    SplitQuoted(content, Quote(key), rest, Merge(key));
  }

  lemma KeyLineIsTrim(t: Letters, key: Text, rest: string)
    requires t.Valid() && IsKeyTail(rest)
    ensures IsTrim(KeyText(t, key) + ":" + rest)
  {
    KeyLineShape(t, key, rest);
  }

  lemma QuoteTail(key: Text, rest: string)
    ensures (Quote(key) + ":" + rest)[0] == '\"'
    ensures (Quote(key) + ":" + rest)[1..] == EscapeAll(key) + "\"" + (":" + rest)
  {
    hide EscapeAll;
  }

  lemma SplitQuoted(content: string, k: string, rest: string, text: Text)
    requires content == k + ":" + rest && Strip(content) == content && content[0] == '\"'
    requires Scan(content[1..]) == Some(Scanned(text, ":" + rest)) && LStrip(":" + rest) == ":" + rest
    ensures SplitKeyValue(content) == Ok((k, rest))
  {
    hide Strip, Scan, LStrip;
    assert content[..|content| - |":" + rest|] == k && (":" + rest)[1..] == rest;
    assert StartsWith(content, "\"") && StartsWith(":" + rest, ":");
  }

  lemma LStripColon(rest: string)
    ensures LStrip(":" + rest) == ":" + rest
  {
  }

  /** A key line splits back into its key and what follows the colon. */
  lemma KeyBack(t: Letters, key: Text, rest: string)
    requires t.Valid() && IsKeyTail(rest)
    ensures SplitKeyValue(KeyText(t, key) + ":" + rest) == Ok((KeyText(t, key), rest))
    ensures ParseKey(KeyText(t, key)) == Ok(Merge(key))
  {
    if IsPlainKey(t, key) {
      PlainKeyBack(t, key, rest);
    } else {
      QuotedKeyBack(t, key, rest);
    }
  }

  // ----- blocks -----

  /** `block` stands in `lines` at `index`. */
  predicate Window(lines: seq<Line>, index: nat, block: seq<Line>) {
    index + |block| <= |lines| && lines[index..index + |block|] == block
  }

  /** Nothing at `index` belongs to a block of that indentation. */
  predicate Closed(lines: seq<Line>, index: nat, indent: nat) {
    index >= |lines| || lines[index].indent < indent
  }

  lemma WindowAppend(lines: seq<Line>, index: nat, a: seq<Line>, b: seq<Line>)
    ensures Window(lines, index, a + b) <==> Window(lines, index, a) && Window(lines, index + |a|, b)
  {
    if index + |a| + |b| <= |lines| {
      var both := lines[index..index + |a| + |b|];
      assert both[..|a|] == lines[index..index + |a|];
      assert both[|a|..] == lines[index + |a|..index + |a| + |b|];
      assert both == both[..|a|] + both[|a|..];
      assert (a + b)[..|a|] == a && (a + b)[|a|..] == b;
    }
  }

  lemma WindowFirst(lines: seq<Line>, index: nat, block: seq<Line>)
    requires block != [] && Window(lines, index, block)
    ensures index < |lines| && lines[index] == block[0]
  {
    assert lines[index..index + |block|][0] == block[0];
  }

  lemma FirstIndent(t: Letters, entries: seq<Entry>, items: seq<Value>, indent: nat)
    ensures entries != [] ==> EntryLines(t, entries, indent)[0].indent == indent
    ensures items != [] ==> ItemLines(t, items, indent)[0].indent == indent
  {
    hide KeyText, InlineText, ScalarText, BlockLines;
  }

  /** Inside a nested block of the first entry or item, the block ends where the rest begins. */
  lemma RestCloses(lines: seq<Line>, index: nat, rest: seq<Line>, indent: nat)
    requires Window(lines, index, rest)
    requires rest == [] ==> Closed(lines, index, indent)
    requires rest != [] ==> rest[0].indent == indent
    ensures Closed(lines, index, indent + 2)
  {
    if rest != [] {
      WindowFirst(lines, index, rest);
    }
  }

  lemma ItemsStop(lines: seq<Line>, index: nat, indent: nat, items: seq<Value>)
    requires index <= |lines| && Closed(lines, index, indent)
    ensures ParseItems(lines, index, indent, items) == Ok(Parsed(List(items), index))
  {
  }

  lemma EntriesStop(lines: seq<Line>, index: nat, indent: nat, mapping: seq<Entry>)
    requires index <= |lines| && Closed(lines, index, indent)
    ensures ParseEntries(lines, index, indent, mapping) == Ok(Parsed(Map(mapping), index))
  {
  }

  lemma ScalarItemStep(v: Value, lines: seq<Line>, index: nat, indent: nat, items: seq<Value>)
    requires !IsContainer(v) && Dumpable(v)
    requires Window(lines, index, [Line(indent, "- " + ScalarText(v))])
    ensures ParseItems(lines, index, indent, items) == ParseItems(lines, index + 1, indent, items + [Norm(v)])
  {
    hide ParseScalar, Strip, ScalarText;
    var text := ScalarText(v);
    var content := "- " + text;
    WindowFirst(lines, index, [Line(indent, content)]);
    InlineBack(v);
    StripTrim(text);
    assert content[1..] == " " + text;
    assert content[..1] == "-";
  }

  lemma NestedItemStep(v: Value, lines: seq<Line>, index: nat, indent: nat, items: seq<Value>, next: nat)
    requires Window(lines, index, [Line(indent, "-")])
    requires ParseBlock(lines, index + 1, indent + 2) == Ok(Parsed(v, next))
    ensures ParseItems(lines, index, indent, items) == ParseItems(lines, next, indent, items + [v])
  {
    hide ParseScalar, ParseBlock;
    WindowFirst(lines, index, [Line(indent, "-")]);
    assert "-"[1..] == "";
  }

  lemma InlineEntryStep(t: Letters, e: Entry, lines: seq<Line>, index: nat, indent: nat, mapping: seq<Entry>)
    requires t.Valid() && Dumpable(e.value) && (!IsContainer(e.value) || IsEmptyContainer(e.value))
    requires Window(lines, index, [Line(indent, KeyText(t, e.key) + ": " + InlineText(e.value))])
    ensures ParseEntries(lines, index, indent, mapping) ==
      ParseEntries(lines, index + 1, indent, DictSet(mapping, Merge(e.key), Norm(e.value)))
  {
    hide ParseScalar, Strip, KeyText, InlineText, SplitKeyValue, ParseKey, DictSet, IsItemLine;
    var k, text := KeyText(t, e.key), InlineText(e.value);
    var content := k + ": " + text;
    WindowFirst(lines, index, [Line(indent, content)]);
    InlineBack(e.value);
    assert (" " + text)[1..] == text;
    assert content == k + ":" + (" " + text);
    KeyBack(t, e.key, " " + text);
    KeyLineShape(t, e.key, " " + text);
    StripTrim(text);
  }

  lemma NestedEntryStep(
    t: Letters, key: Text, v: Value, lines: seq<Line>, index: nat, indent: nat, mapping: seq<Entry>, next: nat)
    requires t.Valid()
    requires Window(lines, index, [Line(indent, KeyText(t, key) + ":")])
    requires ParseBlock(lines, index + 1, indent + 2) == Ok(Parsed(v, next))
    ensures ParseEntries(lines, index, indent, mapping) ==
      ParseEntries(lines, next, indent, DictSet(mapping, Merge(key), v))
  {
    hide ParseScalar, ParseBlock, KeyText, SplitKeyValue, ParseKey, DictSet, IsItemLine;
    var content := KeyText(t, key) + ":";
    WindowFirst(lines, index, [Line(indent, content)]);
    assert content == KeyText(t, key) + ":" + "";
    KeyBack(t, key, "");
    KeyLineShape(t, key, "");
    StripNothing();
  }

  /** The parser reads a printed container back, whatever lines come before it or after it. */
  lemma {:induction false} BlockBack(t: Letters, v: Value, lines: seq<Line>, index: nat, indent: nat)
    requires t.Valid() && IsContainer(v) && Dumpable(v)
    requires Window(lines, index, BlockLines(t, v, indent))
    requires Closed(lines, index + |BlockLines(t, v, indent)|, indent)
    ensures ParseBlock(lines, index, indent) == Ok(Parsed(Norm(v), index + |BlockLines(t, v, indent)|))
    decreases v, 1
  {
    hide EntryLines, ItemLines, ParseEntries, ParseItems, Window, Closed;
    var block := BlockLines(t, v, indent);
    WindowFirst(lines, index, block);
    WindowInside(lines, index, block);
    if IsEmptyContainer(v) {
      assert NormItems([]) == [] && NormEntries([], []) == [];
    } else if v.Map? {
      EntriesBack(t, v.entries, lines, index, indent, []);
      FirstEntryLine(t, v.entries, indent);
    } else {
      ItemsBack(t, v.items, lines, index, indent, []);
      FirstItemLine(t, v.items, indent);
      assert [] + NormItems(v.items) == NormItems(v.items);
    }
  }

  lemma WindowInside(lines: seq<Line>, index: nat, block: seq<Line>)
    requires Window(lines, index, block)
    ensures index + |block| <= |lines|
  {
  }

  lemma FirstEntryLine(t: Letters, entries: seq<Entry>, indent: nat)
    requires t.Valid() && entries != []
    requires forall e :: e in entries ==> Dumpable(e.value)
    ensures var first := EntryLines(t, entries, indent)[0];
      && first.indent == indent && first.content != "{}" && first.content != "[]"
      && first.content != "-" && !StartsWith(first.content, "- ")
  {
    hide KeyText, InlineText, BlockLines, IsItemLine;
    var e := entries[0];
    var k := KeyText(t, e.key);
    if IsContainer(e.value) && !IsEmptyContainer(e.value) {
      KeyLineShape(t, e.key, "");
      assert k + ":" + "" == k + ":";
    } else {
      InlineBack(e.value);
      var text := InlineText(e.value);
      assert (" " + text)[1..] == text;
      assert k + ":" + (" " + text) == k + ": " + text;
      KeyLineShape(t, e.key, " " + text);
    }
  }

  lemma FirstItemLine(t: Letters, items: seq<Value>, indent: nat)
    requires items != []
    ensures var first := ItemLines(t, items, indent)[0];
      && first.indent == indent && first.content != "{}" && first.content != "[]"
      && (first.content == "-" || StartsWith(first.content, "- "))
  {
    hide ScalarText, BlockLines;
    if !IsContainer(items[0]) {
      assert ("- " + ScalarText(items[0]))[..2] == "- ";
      assert "- "[0] == '-' && "{}"[0] == '{' && "[]"[0] == '[';
    }
  }

  lemma {:induction false} ItemsBack(
    t: Letters, items: seq<Value>, lines: seq<Line>, index: nat, indent: nat, before: seq<Value>)
    requires t.Valid() && forall x :: x in items ==> Dumpable(x)
    requires Window(lines, index, ItemLines(t, items, indent))
    requires Closed(lines, index + |ItemLines(t, items, indent)|, indent)
    ensures index <= |lines| && ParseItems(lines, index, indent, before) ==
      Ok(Parsed(List(before + NormItems(items)), index + |ItemLines(t, items, indent)|))
    decreases items, 0
  {
    hide ParseItems, ParseBlock, Window, Closed, BlockLines, ScalarText, Dumpable;
    WindowInside(lines, index, ItemLines(t, items, indent));
    if items == [] {
      ItemsStop(lines, index, indent, before);
      assert before + [] == before;
    } else {
      var v, rest := items[0], items[1..];
      var first, restLines := OneItemLines(t, v, indent), ItemLines(t, rest, indent);
      WindowAppend(lines, index, first, restLines);
      FirstIndent(t, [], rest, indent);
      assert before + [Norm(v)] + NormItems(rest) == before + NormItems(items);
      if IsContainer(v) {
        var block := BlockLines(t, v, indent + 2);
        WindowAppend(lines, index, [Line(indent, "-")], block);
        RestCloses(lines, index + |first|, restLines, indent);
        BlockBack(t, v, lines, index + 1, indent + 2);
        NestedItemStep(Norm(v), lines, index, indent, before, index + |first|);
      } else {
        ScalarItemStep(v, lines, index, indent, before);
      }
      ItemsBack(t, rest, lines, index + |first|, indent, before + [Norm(v)]);
    }
  }

  lemma {:induction false} EntriesBack(
    t: Letters, entries: seq<Entry>, lines: seq<Line>, index: nat, indent: nat, before: seq<Entry>)
    requires t.Valid() && forall e :: e in entries ==> Dumpable(e.value)
    requires Window(lines, index, EntryLines(t, entries, indent))
    requires Closed(lines, index + |EntryLines(t, entries, indent)|, indent)
    ensures index <= |lines| && ParseEntries(lines, index, indent, before) ==
      Ok(Parsed(Map(NormEntries(entries, before)), index + |EntryLines(t, entries, indent)|))
    decreases entries, 0
  {
    hide ParseEntries, ParseBlock, Window, Closed, BlockLines, InlineText, KeyText, Dumpable, DictSet;
    WindowInside(lines, index, EntryLines(t, entries, indent));
    if entries == [] {
      EntriesStop(lines, index, indent, before);
    } else {
      var e, rest := entries[0], entries[1..];
      var first, restLines := OneEntryLines(t, e, indent), EntryLines(t, rest, indent);
      WindowAppend(lines, index, first, restLines);
      FirstIndent(t, rest, [], indent);
      if IsContainer(e.value) && !IsEmptyContainer(e.value) {
        var block := BlockLines(t, e.value, indent + 2);
        WindowAppend(lines, index, [Line(indent, KeyText(t, e.key) + ":")], block);
        RestCloses(lines, index + |first|, restLines, indent);
        BlockBack(t, e.value, lines, index + 1, indent + 2);
        NestedEntryStep(t, e.key, Norm(e.value), lines, index, indent, before, index + |first|);
      } else {
        InlineEntryStep(t, e, lines, index, indent, before);
      }
      EntriesBack(t, rest, lines, index + |first|, indent, DictSet(before, Merge(e.key), Norm(e.value)));
    }
  }
}

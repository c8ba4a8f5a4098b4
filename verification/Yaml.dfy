/** The deterministic printer and the recursive-descent parser of atomic memory files. */
module Yaml {
  import opened Utf8
  import opened YamlText

  /**
   The values the printer takes and the parser yields. A mapping is a Python dict: entries in
   insertion order under distinct keys. `Unquoted` stands for what Python reads from a token that
   is neither a keyword, a quoted string nor an ASCII integer: a float, or the token as text.
   */
  datatype Value =
    | Null
    | Bool(b: bool)
    | Int(n: int)
    | Str(s: Text)
    | List(items: seq<Value>)
    | Map(entries: seq<Entry>)
    | Unquoted(token: string)

  datatype Entry = Entry(key: Text, value: Value)

  predicate IsContainer(v: Value) {
    v.List? || v.Map?
  }

  predicate IsEmptyContainer(v: Value) {
    (v.List? && v.items == []) || (v.Map? && v.entries == [])
  }

  // ----- printing -----

  function ScalarText(v: Value): string
    requires !IsContainer(v)
  {
    match v
    case Null => "null"
    case Bool(b) => if b then "true" else "false"
    case Int(n) => IntText(n)
    case Str(s) => Quote(s)
    case Unquoted(token) => token
  }

  function EmptyText(v: Value): string {
    if v.Map? then "{}" else "[]"
  }

  /** A key that needs no quotes: letters, digits, `_` and `-`, starting with a letter. */
  predicate IsPlainKey(t: Letters, key: Text) {
    && key != []
    && (forall i :: 0 <= i < |key| ==>
      !IsSurrogate(key[i]) && (t.IsAlnum(key[i] as char) || key[i] as char in {'_', '-'}))
    && t.IsAlpha(key[0] as char)
  }

  function PlainText(key: Text): (s: string)
    requires forall i :: 0 <= i < |key| ==> !IsSurrogate(key[i])
    ensures |s| == |key|
  {
    seq(|key|, i requires 0 <= i < |key| && !IsSurrogate(key[i]) => key[i] as char)
  }

  function CodePoints(s: string): (key: Text)
    ensures |key| == |s|
  {
    seq(|s|, i requires 0 <= i < |s| => s[i] as int)
  }

  function KeyText(t: Letters, key: Text): string {
    if IsPlainKey(t, key) then PlainText(key) else Quote(key)
  }

  datatype Line = Line(indent: nat, content: string)

  function InlineText(v: Value): string
    requires !IsContainer(v) || IsEmptyContainer(v)
  {
    if IsContainer(v) then EmptyText(v) else ScalarText(v)
  }

  /** The lines of a value printed at an indentation. */
  function BlockLines(t: Letters, v: Value, indent: nat): (lines: seq<Line>)
    ensures lines != []
    decreases v, 1
  {
    if !IsContainer(v) || IsEmptyContainer(v) then [Line(indent, InlineText(v))]
    else if v.Map? then EntryLines(t, v.entries, indent)
    else ItemLines(t, v.items, indent)
  }

  function EntryLines(t: Letters, entries: seq<Entry>, indent: nat): (lines: seq<Line>)
    ensures entries != [] ==> lines != []
    decreases entries, 0
  {
    if entries == [] then []
    else OneEntryLines(t, entries[0], indent) + EntryLines(t, entries[1..], indent)
  }

  function OneEntryLines(t: Letters, e: Entry, indent: nat): (lines: seq<Line>)
    ensures lines != []
    decreases e, 2
  {
    var key := KeyText(t, e.key);
    if IsContainer(e.value) && !IsEmptyContainer(e.value)
    then [Line(indent, key + ":")] + BlockLines(t, e.value, indent + 2)
    else [Line(indent, key + ": " + InlineText(e.value))]
  }

  function ItemLines(t: Letters, items: seq<Value>, indent: nat): (lines: seq<Line>)
    ensures items != [] ==> lines != []
    decreases items, 0
  {
    if items == [] then []
    else OneItemLines(t, items[0], indent) + ItemLines(t, items[1..], indent)
  }

  function OneItemLines(t: Letters, v: Value, indent: nat): (lines: seq<Line>)
    ensures lines != []
    decreases v, 2
  {
    if IsContainer(v) then [Line(indent, "-")] + BlockLines(t, v, indent + 2)
    else [Line(indent, "- " + ScalarText(v))]
  }

  function Spaces(n: nat): (s: string)
    ensures |s| == n
    ensures forall i :: 0 <= i < n ==> s[i] == ' '
  {
    seq(n, _ => ' ')
  }

  function Render(lines: seq<Line>): (r: seq<string>)
    ensures |r| == |lines|
    ensures forall i :: 0 <= i < |r| ==> r[i] == Spaces(lines[i].indent) + lines[i].content
  {
    seq(|lines|, i requires 0 <= i < |lines| => Spaces(lines[i].indent) + lines[i].content)
  }

  /** `"\n".join(lines)`. */
  function Join(lines: seq<string>): string {
    if lines == [] then ""
    else if |lines| == 1 then lines[0]
    else lines[0] + "\n" + Join(lines[1..])
  }

  function Dump(t: Letters, v: Value, indent: nat): string {
    Join(Render(BlockLines(t, v, indent)))
  }

  lemma {:induction false} JoinAppend(a: seq<string>, b: seq<string>)
    requires a != [] && b != []
    ensures Join(a + b) == Join(a) + "\n" + Join(b)
  {
    if |a| == 1 {
      assert (a + b)[1..] == b;
    } else {
      assert (a + b)[1..] == a[1..] + b;
      JoinAppend(a[1..], b);
    }
  }

  /** A line list may hold a whole joined block as one element. */
  lemma JoinNested(a: seq<string>, b: seq<string>)
    requires b != []
    ensures Join(a + [Join(b)]) == Join(a + b)
  {
    if a == [] {
      assert a + [Join(b)] == [Join(b)] && a + b == b;
    } else {
      JoinAppend(a, [Join(b)]);
      JoinAppend(a, b);
    }
  }

  /** What the printer comes to for each kind of value. */
  lemma DumpCases(t: Letters, v: Value, indent: nat)
    ensures v.Map? && v.entries != [] ==> Dump(t, v, indent) == Join(Render(EntryLines(t, v.entries, indent)))
    ensures v.List? && v.items != [] ==> Dump(t, v, indent) == Join(Render(ItemLines(t, v.items, indent)))
    ensures (v.Map? ==> v.entries == []) && (v.List? ==> v.items == []) ==>
      Dump(t, v, indent) == Spaces(indent) + InlineText(v)
    ensures Join(Render(EntryLines(t, [], indent))) == "" && Join(Render(ItemLines(t, [], indent))) == ""
  {
    hide EntryLines, ItemLines, InlineText;
    assert Render([]) == [];
    NoLines(t, indent);
  }

  lemma NoLines(t: Letters, indent: nat)
    ensures EntryLines(t, [], indent) == [] && ItemLines(t, [], indent) == []
  {
  }

  /** The printer as the source writes it: lines appended in a loop, nested blocks joined first. */
  method DumpYaml(t: Letters, v: Value, indent: nat) returns (text: string)
    ensures text == Dump(t, v, indent)
    decreases v, 1
  {
    DumpCases(t, v, indent);
    if v.Map? && v.entries != [] {
      text := DumpEntries(t, v, indent);
    } else if v.List? && v.items != [] {
      text := DumpItems(t, v, indent);
    } else {
      text := Spaces(indent) + InlineText(v);
    }
  }

  /** The loop over the entries of a mapping. */
  method DumpEntries(t: Letters, v: Value, indent: nat) returns (text: string)
    requires v.Map?
    ensures text == Join(Render(EntryLines(t, v.entries, indent)))
    decreases v, 0
  {
    hide KeyText, ScalarText, EmptyText, Render, Join, BlockLines, EntryLines;
    DumpCases(t, v, indent);
    var prefix := Spaces(indent);
    var lines: seq<string> := [];
    NothingJoined();
    for i := 0 to |v.entries|
      invariant (lines == []) == (i == 0)
      invariant Join(lines) == Join(Render(EntryLines(t, v.entries[..i], indent)))
    {
      var e := v.entries[i];
      ghost var done := EntryLines(t, v.entries[..i], indent);
      EntryLinesSnoc(t, v.entries, i, indent);
      var key := KeyText(t, e.key);
      if IsContainer(e.value) && !IsEmptyContainer(e.value) {
        var block := DumpYaml(t, e.value, indent + 2);
        AddBlock(lines, done, Line(indent, key + ":"), BlockLines(t, e.value, indent + 2), prefix + key + ":", block);
        lines := lines + [prefix + key + ":"];
        lines := lines + [block];
      } else {
        var scalar := if IsContainer(e.value) then EmptyText(e.value) else ScalarText(e.value);
        AddLine(lines, done, Line(indent, key + ": " + scalar), prefix + key + ": " + scalar);
        lines := lines + [prefix + key + ": " + scalar];
      }
    }
    assert v.entries[..|v.entries|] == v.entries;
    return Join(lines);
  }

  /** The loop over the items of a list. */
  method DumpItems(t: Letters, v: Value, indent: nat) returns (text: string)
    requires v.List?
    ensures text == Join(Render(ItemLines(t, v.items, indent)))
    decreases v, 0
  {
    hide ScalarText, Render, Join, BlockLines, ItemLines;
    DumpCases(t, v, indent);
    var prefix := Spaces(indent);
    var lines: seq<string> := [];
    NothingJoined();
    for i := 0 to |v.items|
      invariant (lines == []) == (i == 0)
      invariant Join(lines) == Join(Render(ItemLines(t, v.items[..i], indent)))
    {
      var item := v.items[i];
      ghost var done := ItemLines(t, v.items[..i], indent);
      ItemLinesSnoc(t, v.items, i, indent);
      if IsContainer(item) {
        var block := DumpYaml(t, item, indent + 2);
        AddBlock(lines, done, Line(indent, "-"), BlockLines(t, item, indent + 2), prefix + "-", block);
        lines := lines + [prefix + "-"];
        lines := lines + [block];
      } else {
        AddLine(lines, done, Line(indent, "- " + ScalarText(item)), prefix + "- " + ScalarText(item));
        lines := lines + [prefix + "- " + ScalarText(item)];
      }
    }
    assert v.items[..|v.items|] == v.items;
    return Join(lines);
  }

  lemma NothingJoined()
    ensures Join([]) == ""
  {
  }

  lemma RenderAppend(a: seq<Line>, b: seq<Line>)
    ensures Render(a + b) == Render(a) + Render(b)
  {
  }

  lemma AddLine(lines: seq<string>, done: seq<Line>, line: Line, text: string)
    requires (lines == []) == (done == []) && Join(lines) == Join(Render(done))
    requires text == Spaces(line.indent) + line.content
    ensures Join(lines + [text]) == Join(Render(done + [line]))
  {
    RenderAppend(done, [line]);
    assert Render([line]) == [text];
    if lines == [] {
      assert lines + [text] == [text] && Render(done) + [text] == [text];
    } else {
      JoinAppend(lines, [text]);
      JoinAppend(Render(done), [text]);
    }
  }

  lemma AddBlock(lines: seq<string>, done: seq<Line>, line: Line, block: seq<Line>, text: string, blockText: string)
    requires (lines == []) == (done == []) && Join(lines) == Join(Render(done)) && block != []
    requires text == Spaces(line.indent) + line.content && blockText == Join(Render(block))
    ensures Join(lines + [text] + [blockText]) == Join(Render(done + ([line] + block)))
  {
    hide Join;
    AddLine(lines, done, line, text);
    JoinNested(lines + [text], Render(block));
    RenderAppend(done + [line], block);
    assert done + ([line] + block) == (done + [line]) + block;
    JoinAppend(lines + [text], Render(block));
    JoinAppend(Render(done + [line]), Render(block));
  }

  lemma {:induction false} EntryLinesAppend(t: Letters, a: seq<Entry>, b: seq<Entry>, indent: nat)
    ensures EntryLines(t, a + b, indent) == EntryLines(t, a, indent) + EntryLines(t, b, indent)
  {
    hide OneEntryLines;
    if a == [] {
      assert a + b == b;
    } else {
      assert (a + b)[1..] == a[1..] + b;
      EntryLinesAppend(t, a[1..], b, indent);
    }
  }

  lemma EntryLinesSnoc(t: Letters, entries: seq<Entry>, i: nat, indent: nat)
    requires i < |entries|
    ensures EntryLines(t, entries[..i + 1], indent) ==
      EntryLines(t, entries[..i], indent) + OneEntryLines(t, entries[i], indent)
    ensures (EntryLines(t, entries[..i], indent) == []) == (i == 0)
  {
    hide OneEntryLines;
    assert entries[..i + 1] == entries[..i] + [entries[i]];
    EntryLinesAppend(t, entries[..i], [entries[i]], indent);
    assert [entries[i]][1..] == [];
  }

  lemma {:induction false} ItemLinesAppend(t: Letters, a: seq<Value>, b: seq<Value>, indent: nat)
    ensures ItemLines(t, a + b, indent) == ItemLines(t, a, indent) + ItemLines(t, b, indent)
  {
    hide OneItemLines;
    if a == [] {
      assert a + b == b;
    } else {
      assert (a + b)[1..] == a[1..] + b;
      ItemLinesAppend(t, a[1..], b, indent);
    }
  }

  lemma ItemLinesSnoc(t: Letters, items: seq<Value>, i: nat, indent: nat)
    requires i < |items|
    ensures ItemLines(t, items[..i + 1], indent) ==
      ItemLines(t, items[..i], indent) + OneItemLines(t, items[i], indent)
    ensures (ItemLines(t, items[..i], indent) == []) == (i == 0)
  {
    hide OneItemLines;
    assert items[..i + 1] == items[..i] + [items[i]];
    ItemLinesAppend(t, items[..i], [items[i]], indent);
    assert [items[i]][1..] == [];
  }
}

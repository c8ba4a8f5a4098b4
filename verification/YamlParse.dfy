/** The parser: text to lines, lines to values by recursive descent with an index cursor. */
module YamlParse {
  import opened Utf8
  import opened YamlText
  import opened Yaml

  function ParseScalar(raw: string): Result<Value> {
    var text := Strip(raw);
    if text == "null" then Ok(Null)
    else if text == "true" then Ok(Bool(true))
    else if text == "false" then Ok(Bool(false))
    else if text == "{}" then Ok(Map([]))
    else if text == "[]" then Ok(List([]))
    else if StartsWith(text, "\"") || StartsWith(text, "'") then
      var s := LoadsString(text);
      if s.Ok? then Ok(Str(s.value)) else Err
    else
      match ParseInt(text)
      case Some(n) => Ok(Int(n))
      case None => Ok(Unquoted(text))
  }

  /** `json.loads` of stripped text that starts with a quote: one string and nothing behind it. */
  function LoadsString(text: string): Result<Text>
    requires text != ""
  {
    if text[0] != '\"' then Err
    else
      match Scan(text[1..])
      case None => Err
      case Some(scanned) => if scanned.rest == "" then Ok(scanned.text) else Err
  }

  function ParseKey(raw: string): Result<Text> {
    var text := Strip(raw);
    if StartsWith(text, "\"") || StartsWith(text, "'") then LoadsString(text) else Ok(CodePoints(text))
  }

  function FindColon(s: string): (i: nat)
    ensures i <= |s|
    ensures i < |s| ==> s[i] == ':'
    ensures forall j :: 0 <= j < i ==> s[j] != ':'
  {
    if s == "" || s[0] == ':' then 0 else 1 + FindColon(s[1..])
  }

  function SplitKeyValue(content: string): Result<(string, string)> {
    var stripped := Strip(content);
    if StartsWith(stripped, "\"") then
      match Scan(stripped[1..])
      case None => Err
      case Some(scanned) =>
        var rest := LStrip(scanned.rest);
        if !StartsWith(rest, ":") then Err
        else Ok((stripped[..|stripped| - |scanned.rest|], rest[1..]))
    else
      var i := FindColon(content);
      if i == |content| then Err else Ok((content[..i], content[i + 1..]))
  }

  /** `mapping[key] = value` on a dict: a known key keeps its place. */
  function DictSet(m: seq<Entry>, key: Text, value: Value): (r: seq<Entry>)
    ensures |m| <= |r| <= |m| + 1
  {
    if m == [] then [Entry(key, value)]
    else if m[0].key == key then [Entry(key, value)] + m[1..]
    else [m[0]] + DictSet(m[1..], key, value)
  }

  predicate IsItemLine(content: string): (item: bool)
    ensures item ==> content != ""
  {
    StartsWith(content, "-")
  }

  /** A parsed value and the index of the first line behind it. */
  datatype Parsed = Parsed(value: Value, index: nat)

  function ParseBlock(lines: seq<Line>, index: nat, indent: nat): (r: Result<Parsed>)
    requires index <= |lines|
    ensures r.Ok? ==> index <= r.value.index <= |lines|
    decreases |lines| - index, 1
  {
    if index >= |lines| then Ok(Parsed(Map([]), index))
    else
      var Line(currentIndent, current) := lines[index];
      if currentIndent < indent then Ok(Parsed(Map([]), index))
      else if currentIndent == indent && (current == "{}" || current == "[]") then
        Ok(Parsed(if current == "{}" then Map([]) else List([]), index + 1))
      else if current == "-" || StartsWith(current, "- ") then ParseItems(lines, index, indent, [])
      else ParseEntries(lines, index, indent, [])
  }

  function ParseItems(lines: seq<Line>, index: nat, indent: nat, items: seq<Value>): (r: Result<Parsed>)
    requires index <= |lines|
    ensures r.Ok? ==> index <= r.value.index <= |lines|
    decreases |lines| - index, 0
  {
    if index >= |lines| || lines[index].indent != indent || !IsItemLine(lines[index].content)
    then Ok(Parsed(List(items), index))
    else
      var itemText := Strip(lines[index].content[1..]);
      if itemText != "" then
        var item := ParseScalar(itemText);
        if item.Err? then Err else ParseItems(lines, index + 1, indent, items + [item.value])
      else
        var item := ParseBlock(lines, index + 1, indent + 2);
        if item.Err? then Err
        else ParseItems(lines, item.value.index, indent, items + [item.value.value])
  }

  function ParseEntries(lines: seq<Line>, index: nat, indent: nat, mapping: seq<Entry>): (r: Result<Parsed>)
    requires index <= |lines|
    ensures r.Ok? ==> index <= r.value.index <= |lines|
    decreases |lines| - index, 0
  {
    if index >= |lines| || lines[index].indent != indent || IsItemLine(lines[index].content)
    then Ok(Parsed(Map(mapping), index))
    else
      var split := SplitKeyValue(lines[index].content);
      if split.Err? then Err
      else
        var key := ParseKey(split.value.0);
        var valueText := Strip(split.value.1);
        if key.Err? then Err
        else if valueText != "" then
          var value := ParseScalar(valueText);
          if value.Err? then Err
          else ParseEntries(lines, index + 1, indent, DictSet(mapping, key.value, value.value))
        else
          var value := ParseBlock(lines, index + 1, indent + 2);
          if value.Err? then Err
          else ParseEntries(lines, value.value.index, indent, DictSet(mapping, key.value, value.value.value))
  }

  lemma BlockUnfold(lines: seq<Line>, index: nat, indent: nat)
    requires index < |lines|
    ensures var line := lines[index];
      ParseBlock(lines, index, indent) ==
        if line.indent < indent then Ok(Parsed(Map([]), index))
        else if line.indent == indent && (line.content == "{}" || line.content == "[]") then
          Ok(Parsed(if line.content == "{}" then Map([]) else List([]), index + 1))
        else if line.content == "-" || StartsWith(line.content, "- ") then ParseItems(lines, index, indent, [])
        else ParseEntries(lines, index, indent, [])
  {
    hide ParseItems, ParseEntries;
  }

  lemma ItemsUnfold(lines: seq<Line>, index: nat, indent: nat, items: seq<Value>)
    requires index < |lines| && lines[index].indent == indent && IsItemLine(lines[index].content)
    ensures var itemText := Strip(lines[index].content[1..]);
      ParseItems(lines, index, indent, items) ==
        var item :=
          if itemText == "" then ParseBlock(lines, index + 1, indent + 2)
          else MapResult(ParseScalar(itemText), index + 1);
        if item.Err? then Err else ParseItems(lines, item.value.index, indent, items + [item.value.value])
  {
    hide ParseBlock, ParseScalar, Strip;
  }

  lemma EntriesUnfold(lines: seq<Line>, index: nat, indent: nat, mapping: seq<Entry>)
    requires index < |lines| && lines[index].indent == indent && !IsItemLine(lines[index].content)
    ensures var split := SplitKeyValue(lines[index].content);
      ParseEntries(lines, index, indent, mapping) ==
        if split.Err? || ParseKey(split.value.0).Err? then Err
        else
          var valueText := Strip(split.value.1);
          var value :=
            if valueText == "" then ParseBlock(lines, index + 1, indent + 2)
            else MapResult(ParseScalar(valueText), index + 1);
          if value.Err? then Err
          else ParseEntries(lines, value.value.index, indent,
            DictSet(mapping, ParseKey(split.value.0).value, value.value.value))
  {
    hide ParseBlock, ParseScalar, Strip, SplitKeyValue, ParseKey, DictSet;
  }

  lemma BlockEnd(lines: seq<Line>, index: nat, indent: nat)
    requires index <= |lines|
    ensures index == |lines| ==> ParseBlock(lines, index, indent) == Ok(Parsed(Map([]), index))
    ensures forall items {:trigger ParseItems(lines, index, indent, items)} ::
      index == |lines| || lines[index].indent != indent || !IsItemLine(lines[index].content) ==>
        ParseItems(lines, index, indent, items) == Ok(Parsed(List(items), index))
    ensures forall mapping {:trigger ParseEntries(lines, index, indent, mapping)} ::
      index == |lines| || lines[index].indent != indent || IsItemLine(lines[index].content) ==>
        ParseEntries(lines, index, indent, mapping) == Ok(Parsed(Map(mapping), index))
  {
  }

  /** A scalar that takes up the rest of its line. */
  function MapResult(scalar: Result<Value>, index: nat): Result<Parsed> {
    if scalar.Err? then Err else Ok(Parsed(scalar.value, index))
  }

  /** The parser as the source writes it: two loops over the index, recursion for nested blocks. */
  method ParseYamlBlock(lines: seq<Line>, start: nat, indent: nat) returns (r: Result<Parsed>)
    requires start <= |lines|
    ensures r == ParseBlock(lines, start, indent)
    decreases |lines| - start
  {
    hide SplitKeyValue, ParseKey, ParseScalar, DictSet, Strip, StartsWith, ParseItems, ParseEntries;
    hide ParseBlock;
    var index := start;
    BlockEnd(lines, index, indent);
    if index >= |lines| {
      return Ok(Parsed(Map([]), index));
    }
    BlockUnfold(lines, index, indent);
    var Line(currentIndent, current) := lines[index];
    if currentIndent < indent {
      return Ok(Parsed(Map([]), index));
    }
    if currentIndent == indent && (current == "{}" || current == "[]") {
      return Ok(Parsed(if current == "{}" then Map([]) else List([]), index + 1));
    }
    if current == "-" || StartsWith(current, "- ") {
      var items: seq<Value> := [];
      while index < |lines|
        invariant start <= index <= |lines|
        invariant ParseItems(lines, start, indent, []) == ParseItems(lines, index, indent, items)
      {
        var Line(lineIndent, content) := lines[index];
        if lineIndent != indent || !IsItemLine(content) {
          break;
        }
        ItemsUnfold(lines, index, indent, items);
        var itemText := Strip(content[1..]);
        if itemText != "" {
          var item := ParseScalar(itemText);
          if item.Err? {
            return Err;
          }
          index := index + 1;
          items := items + [item.value];
        } else {
          var item := ParseYamlBlock(lines, index + 1, indent + 2);
          if item.Err? {
            return Err;
          }
          index := item.value.index;
          items := items + [item.value.value];
        }
      }
      BlockEnd(lines, index, indent);
      return Ok(Parsed(List(items), index));
    }
    var mapping: seq<Entry> := [];
    while index < |lines|
      invariant start <= index <= |lines|
      invariant ParseEntries(lines, start, indent, []) == ParseEntries(lines, index, indent, mapping)
    {
      var Line(lineIndent, content) := lines[index];
      if lineIndent != indent || IsItemLine(content) {
        break;
      }
      EntriesUnfold(lines, index, indent, mapping);
      var split := SplitKeyValue(content);
      if split.Err? {
        return Err;
      }
      var key := ParseKey(split.value.0);
      if key.Err? {
        return Err;
      }
      var valueText := Strip(split.value.1);
      if valueText != "" {
        var value := ParseScalar(valueText);
        if value.Err? {
          return Err;
        }
        index := index + 1;
        mapping := DictSet(mapping, key.value, value.value);
      } else {
        var value := ParseYamlBlock(lines, index + 1, indent + 2);
        if value.Err? {
          return Err;
        }
        index := value.value.index;
        mapping := DictSet(mapping, key.value, value.value.value);
      }
    }
    BlockEnd(lines, index, indent);
    return Ok(Parsed(Map(mapping), index));
  }

  /** When a block consumes at least one line; otherwise it is an empty container on the spot. */
  predicate StartsBlock(lines: seq<Line>, index: nat, indent: nat) {
    && index < |lines|
    && lines[index].indent == indent
    && var content := lines[index].content;
      !IsItemLine(content) || content == "-" || StartsWith(content, "- ")
  }

  lemma BlockAdvances(lines: seq<Line>, index: nat, indent: nat)
    requires index <= |lines| && ParseBlock(lines, index, indent).Ok?
    ensures ParseBlock(lines, index, indent).value.index > index <==> StartsBlock(lines, index, indent)
    ensures !StartsBlock(lines, index, indent) ==> IsEmptyContainer(ParseBlock(lines, index, indent).value.value)
  {
    hide SplitKeyValue, ParseKey, ParseScalar, DictSet, Strip, ParseItems, ParseEntries;
    ItemsAdvance(lines, index, indent);
    EntriesAdvance(lines, index, indent);
    if index < |lines| {
      ItemStarts(lines[index].content);
    }
  }

  lemma ItemStarts(content: string)
    ensures content == "-" || StartsWith(content, "- ") ==> IsItemLine(content)
    ensures !IsItemLine("{}") && !IsItemLine("[]")
  {
    assert "-"[0] == '-' && "{}"[0] == '{' && "[]"[0] == '[';
    if StartsWith(content, "- ") {
      assert content[..1] == "- "[..1] == "-";
    }
  }

  lemma ItemsAdvance(lines: seq<Line>, index: nat, indent: nat)
    requires index <= |lines|
    ensures var r, goes := ParseItems(lines, index, indent, []),
        index < |lines| && lines[index].indent == indent && IsItemLine(lines[index].content);
      r.Ok? ==> (r.value.index > index <==> goes) && (!goes ==> r.value.value == List([]))
  {
    hide SplitKeyValue, ParseKey, ParseScalar, DictSet, Strip;
  }

  lemma EntriesAdvance(lines: seq<Line>, index: nat, indent: nat)
    requires index <= |lines|
    ensures var r, goes := ParseEntries(lines, index, indent, []),
        index < |lines| && lines[index].indent == indent && !IsItemLine(lines[index].content);
      r.Ok? ==> (r.value.index > index <==> goes) && (!goes ==> r.value.value == Map([]))
  {
    hide SplitKeyValue, ParseKey, ParseScalar, DictSet, Strip;
  }

  // ----- lines -----

  /** Pieces between line breaks. A `\r\n` gives one piece more than `splitlines` does: a blank one. */
  function SplitLines(text: string): (pieces: seq<string>)
    ensures pieces != []
  {
    if text == "" then [""]
    else
      var rest := SplitLines(text[1..]);
      if IsLineBreak(text[0]) then [""] + rest else [[text[0]] + rest[0]] + rest[1..]
  }

  function LeadingSpaces(s: string): nat {
    if s != "" && s[0] == ' ' then 1 + LeadingSpaces(s[1..]) else 0
  }

  function LinesOf(pieces: seq<string>): seq<Line> {
    if pieces == [] then []
    else if Strip(pieces[0]) == "" then LinesOf(pieces[1..])
    else [Line(LeadingSpaces(pieces[0]), Strip(pieces[0]))] + LinesOf(pieces[1..])
  }

  function YamlLines(text: string): seq<Line> {
    LinesOf(SplitLines(text))
  }

  function Load(text: string): Result<Value> {
    var lines := YamlLines(text);
    if lines == [] then Ok(Map([]))
    else
      var content := lines[0].content;
      if |lines| == 1 && content != "-" && content != "{}" && !StartsWith(content, "- ") && ':' !in content
      then ParseScalar(content)
      else
        var r := ParseBlock(lines, 0, lines[0].indent);
        if r.Err? || r.value.index != |lines| then Err else Ok(r.value.value)
  }

  method LoadAtomicYaml(text: string) returns (r: Result<Value>)
    ensures r == Load(text)
  {
    var lines := YamlLines(text);
    if lines == [] {
      return Ok(Map([]));
    }
    if |lines| == 1 {
      var content := lines[0].content;
      if content != "-" && content != "{}" && !StartsWith(content, "- ") && ':' !in content {
        return ParseScalar(content);
      }
    }
    var block := ParseYamlBlock(lines, 0, lines[0].indent);
    if block.Err? {
      return Err;
    }
    if block.value.index != |lines| {
      return Err;
    }
    return Ok(block.value.value);
  }
}

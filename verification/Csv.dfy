/** Python's `csv` writer and reader with their default dialect (section 2 of RFC 4180), over whole texts. */
module Csv {
  import opened Utf8

  const COMMA: CodePoint := 0x2C
  const QUOTE: CodePoint := 0x22
  const CR: CodePoint := 0x0D
  const LF: CodePoint := 0x0A

  type Row = seq<Text>

  // ----- the writer, lines ending in LF -----

  predicate NeedsQuotes(field: Text) {
    COMMA in field || QUOTE in field || CR in field || LF in field
  }

  function Doubled(field: Text): Text {
    if field == [] then []
    else (if field[0] == QUOTE then [QUOTE, QUOTE] else [field[0]]) + Doubled(field[1..])
  }

  function PrintField(field: Text): Text {
    if NeedsQuotes(field) then [QUOTE] + Doubled(field) + [QUOTE] else field
  }

  /** The fields of a row that is not empty; a lone empty field is quoted to tell it from a blank line. */
  function PrintFields(row: Row): Text
    requires row != []
  {
    if |row| == 1 then PrintField(row[0]) else PrintField(row[0]) + [COMMA] + PrintFields(row[1..])
  }

  function PrintRow(row: Row): Text {
    if row == [] then [LF]
    else if row == [[]] then [QUOTE, QUOTE, LF]
    else PrintFields(row) + [LF]
  }

  function Print(rows: seq<Row>): Text {
    if rows == [] then [] else PrintRow(rows[0]) + Print(rows[1..])
  }

  // ----- the reader, a state machine -----

  datatype State = StartRecord | StartField | InField | InQuotes | QuoteInQuotes

  predicate IsNewline(c: CodePoint) {
    c == CR || c == LF
  }

  /** What follows a line ending at the start of `t`; CR LF is one. */
  function AfterNewline(t: Text): (rest: Text)
    requires t != []
    ensures |rest| < |t|
  {
    if t[0] == CR && |t| > 1 && t[1] == LF then t[2..] else t[1..]
  }

  /** The rows of `t`, read from a state with the field and row built so far. */
  function Parse(t: Text, s: State, field: Text, row: Row): seq<Row>
    decreases |t|
  {
    if t == [] then (if s == StartRecord then [] else [row + [field]])
    else
      var c, rest := t[0], t[1..];
      match s
      case StartRecord =>
        if IsNewline(c) then [[]] + Parse(AfterNewline(t), StartRecord, [], [])
        else if c == QUOTE then Parse(rest, InQuotes, field, row)
        else if c == COMMA then Parse(rest, StartField, [], row + [field])
        else Parse(rest, InField, field + [c], row)
      case StartField =>
        if IsNewline(c) then [row + [field]] + Parse(AfterNewline(t), StartRecord, [], [])
        else if c == QUOTE then Parse(rest, InQuotes, field, row)
        else if c == COMMA then Parse(rest, StartField, [], row + [field])
        else Parse(rest, InField, field + [c], row)
      case InField =>
        if IsNewline(c) then [row + [field]] + Parse(AfterNewline(t), StartRecord, [], [])
        else if c == COMMA then Parse(rest, StartField, [], row + [field])
        else Parse(rest, InField, field + [c], row)
      case InQuotes =>
        if c == QUOTE then Parse(rest, QuoteInQuotes, field, row)
        else Parse(rest, InQuotes, field + [c], row)
      case QuoteInQuotes =>
        if c == QUOTE then Parse(rest, InQuotes, field + [c], row)
        else if c == COMMA then Parse(rest, StartField, [], row + [field])
        else if IsNewline(c) then [row + [field]] + Parse(AfterNewline(t), StartRecord, [], [])
        else Parse(rest, InField, field + [c], row)
  }

  function ParseRows(t: Text): seq<Row> {
    Parse(t, StartRecord, [], [])
  }

  // ----- reading back what was written -----

  /** One step of the machine on a text with a known first character. */
  lemma Head(c: CodePoint, rest: Text)
    ensures ([c] + rest)[0] == c && ([c] + rest)[1..] == rest
    ensures c == LF ==> AfterNewline([c] + rest) == rest
  {
  }

  lemma {:induction false} PlainBack(field: Text, rest: Text, read: Text, row: Row)
    requires !NeedsQuotes(field)
    ensures Parse(field + rest, InField, read, row) == Parse(rest, InField, read + field, row)
  {
    if field == [] {
      assert field + rest == rest && read + field == read;
    } else {
      var c := field[0];
      assert c in field;
      assert field == [c] + field[1..];
      assert field + rest == [c] + (field[1..] + rest);
      Head(c, field[1..] + rest);
      assert !NeedsQuotes(field[1..]) by {
        assert forall x :: x in field[1..] ==> x in field;
      }
      PlainBack(field[1..], rest, read + [c], row);
      assert read + [c] + field[1..] == read + field;
    }
  }

  lemma StepInQuotes(c: CodePoint, rest: Text, read: Text, row: Row)
    ensures Parse([c] + rest, InQuotes, read, row) ==
      if c == QUOTE then Parse(rest, QuoteInQuotes, read, row) else Parse(rest, InQuotes, read + [c], row)
    ensures Parse([QUOTE] + rest, QuoteInQuotes, read, row) == Parse(rest, InQuotes, read + [QUOTE], row)
  {
    Head(c, rest);
    Head(QUOTE, rest);
  }

  lemma {:induction false} DoubledBack(field: Text, rest: Text, read: Text, row: Row)
    ensures Parse(Doubled(field) + ([QUOTE] + rest), InQuotes, read, row) ==
      Parse(rest, QuoteInQuotes, read + field, row)
  {
    hide Parse;
    if field == [] {
      assert Doubled(field) + ([QUOTE] + rest) == [QUOTE] + rest && read + field == read;
      StepInQuotes(QUOTE, rest, read, row);
    } else {
      var c, more := field[0], Doubled(field[1..]) + ([QUOTE] + rest);
      DoubledBack(field[1..], rest, read + [c], row);
      assert read + [c] + field[1..] == read + field;
      if c == QUOTE {
        assert Doubled(field) + ([QUOTE] + rest) == [QUOTE] + ([QUOTE] + more);
        StepInQuotes(QUOTE, [QUOTE] + more, read, row);
        StepInQuotes(QUOTE, more, read, row);
      } else {
        assert Doubled(field) + ([QUOTE] + rest) == [c] + more;
        StepInQuotes(c, more, read, row);
      }
    }
  }

  /** The two ways a field ends: at a comma, or with the line. */
  ghost predicate EndsField(end: CodePoint) {
    end == COMMA || end == LF
  }

  /** What the machine does once a field has been read up to its end. */
  ghost function AfterField(end: CodePoint, rest: Text, field: Text, row: Row): seq<Row> {
    if end == COMMA then Parse(rest, StartField, [], row + [field])
    else [row + [field]] + Parse(rest, StartRecord, [], [])
  }

  /** The field has been read whole and its end comes next. */
  lemma AtEnd(end: CodePoint, rest: Text, s: State, field: Text, row: Row)
    requires EndsField(end) && s != InQuotes && (s == StartRecord ==> end == COMMA)
    ensures Parse([end] + rest, s, field, row) == AfterField(end, rest, field, row)
  {
    Head(end, rest);
  }

  lemma QuotedBack(field: Text, end: CodePoint, rest: Text, s: State, row: Row)
    requires EndsField(end) && (s == StartField || s == StartRecord)
    ensures Parse([QUOTE] + Doubled(field) + [QUOTE] + ([end] + rest), s, [], row) == AfterField(end, rest, field, row)
  {
    hide Doubled;
    var tail := [end] + rest;
    var quoted := Doubled(field) + ([QUOTE] + tail);
    assert [QUOTE] + Doubled(field) + [QUOTE] + tail == [QUOTE] + quoted;
    Head(QUOTE, quoted);
    assert Parse([QUOTE] + quoted, s, [], row) == Parse(quoted, InQuotes, [], row);
    hide Parse;
    DoubledBack(field, tail, [], row);
    assert [] + field == field;
    AtEnd(end, rest, QuoteInQuotes, field, row);
  }

  lemma UnquotedBack(field: Text, end: CodePoint, rest: Text, s: State, row: Row)
    requires EndsField(end) && (s == StartField || s == StartRecord) && field != [] && !NeedsQuotes(field)
    ensures Parse(field + ([end] + rest), s, [], row) == AfterField(end, rest, field, row)
  {
    var c, more, tail := field[0], field[1..], [end] + rest;
    assert c in field && field == [c] + more;
    assert !NeedsQuotes(more) by {
      assert forall x :: x in more ==> x in field;
    }
    assert field + tail == [c] + (more + tail);
    Head(c, more + tail);
    assert [] + [c] == [c];
    assert Parse([c] + (more + tail), s, [], row) == Parse(more + tail, InField, [c], row);
    hide Parse, NeedsQuotes;
    PlainBack(more, tail, [c], row);
    AtEnd(end, rest, InField, field, row);
  }

  lemma FieldBack(field: Text, end: CodePoint, rest: Text, s: State, row: Row)
    requires EndsField(end)
    requires s == StartField || (s == StartRecord && row == [] && (field != [] || end == COMMA))
    ensures Parse(PrintField(field) + ([end] + rest), s, [], row) == AfterField(end, rest, field, row)
  {
    hide Doubled, Parse, AfterField;
    if NeedsQuotes(field) {
      QuotedBack(field, end, rest, s, row);
    } else if field == [] {
      assert PrintField(field) + ([end] + rest) == [end] + rest;
      AtEnd(end, rest, s, [], row);
    } else {
      UnquotedBack(field, end, rest, s, row);
    }
  }

  lemma {:induction false} FieldsBack(fields: Row, rest: Text, s: State, row: Row)
    requires fields != []
    requires s == StartField || (s == StartRecord && row == [] && fields != [[]])
    ensures Parse(PrintFields(fields) + ([LF] + rest), s, [], row) == [row + fields] + ParseRows(rest)
  {
    hide Parse, PrintField;
    if |fields| == 1 {
      FieldBack(fields[0], LF, rest, s, row);
      assert fields == [fields[0]];
    } else {
      var more := PrintFields(fields[1..]) + ([LF] + rest);
      assert PrintFields(fields) + ([LF] + rest) == PrintField(fields[0]) + ([COMMA] + more);
      FieldBack(fields[0], COMMA, more, s, row);
      FieldsBack(fields[1..], rest, StartField, row + [fields[0]]);
      assert row + [fields[0]] + fields[1..] == row + fields;
    }
  }

  lemma RowBack(row: Row, rest: Text)
    ensures ParseRows(PrintRow(row) + rest) == [row] + ParseRows(rest)
  {
    if row == [] {
      Head(LF, rest);
    } else if row == [[]] {
      hide Parse;
      QuotedBack([], LF, rest, StartRecord, []);
      assert PrintRow(row) + rest == [QUOTE] + Doubled([]) + [QUOTE] + ([LF] + rest);
      assert [] + [[]] == row;
    } else {
      hide Parse, PrintFields;
      FieldsBack(row, rest, StartRecord, []);
      assert PrintRow(row) + rest == PrintFields(row) + ([LF] + rest);
      assert [] + row == row;
    }
  }

  /** Reading back any rows that were written gives those rows, whatever their fields hold. */
  lemma {:induction false} ParseOfPrint(rows: seq<Row>)
    ensures ParseRows(Print(rows)) == rows
  {
    hide Parse, PrintRow;
    if rows == [] {
      assert ParseRows([]) == [] by { NoRows(); }
    } else {
      RowBack(rows[0], Print(rows[1..]));
      ParseOfPrint(rows[1..]);
      assert rows == [rows[0]] + rows[1..];
    }
  }

  lemma NoRows()
    ensures ParseRows([]) == []
  {
  }
}

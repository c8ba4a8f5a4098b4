/** The extra-field parser and the ZIP64 extra-field check (APPNOTE sections 4.5.1 and 4.5.3). */
module ZipExtra {
  import opened Struct
  import opened Utf8
  import opened ZipFormat

  datatype ExtraError =
    | TruncatedExtraHeader
    | TruncatedExtraPayload
    | UnapprovedExtraField
    | DuplicateZip64Extra
    | UnnecessaryExtraField
    | MissingZip64Extra
    | TruncatedZip64Extra
    | Zip64ValueMismatch
    | Zip64ExtraTrailingData

  datatype Field = Field(id: nat, data: bytes)
  datatype Parsed = Parsed(fields: seq<Field>, error: Option<ExtraError>)

  /** One value the ZIP64 field must carry: its width in bytes and the expected number. */
  datatype Required = Required(width: nat, value: nat)

  function ParseFields(extra: bytes): Parsed
    decreases |extra|
  {
    if extra == [] then Parsed([], None)
    else if |extra| < 4 then Parsed([], Some(TruncatedExtraHeader))
    else
      var size := Le(extra[2..4]);
      if 4 + size > |extra| then Parsed([], Some(TruncatedExtraPayload))
      else
        var rest := ParseFields(extra[4 + size..]);
        Parsed([Field(Le(extra[..2]), extra[4..4 + size])] + rest.fields, rest.error)
  }

  method ZipExtraFields(extra: bytes) returns (fields: seq<Field>, error: Option<ExtraError>)
    ensures Parsed(fields, error) == ParseFields(extra)
  {
    hide ParseFields;
    fields := [];
    var cursor := 0;
    assert extra[0..] == extra;
    while cursor < |extra|
      invariant 0 <= cursor <= |extra|
      invariant ParseFields(extra) ==
        Parsed(fields + ParseFields(extra[cursor..]).fields, ParseFields(extra[cursor..]).error)
    {
      ParseFieldsAt(extra, cursor);
      if |extra| - cursor < 4 {
        return fields, Some(TruncatedExtraHeader);
      }
      var fieldId, fieldSize := Le(extra[cursor..cursor + 2]), Le(extra[cursor + 2..cursor + 4]);
      cursor := cursor + 4;
      var end := cursor + fieldSize;
      if end > |extra| {
        return fields, Some(TruncatedExtraPayload);
      }
      fields := fields + [Field(fieldId, extra[cursor..end])];
      cursor := end;
    }
    assert extra[cursor..] == [];
    ParseNothing();
    return fields, None;
  }

  lemma ParseNothing()
    ensures ParseFields([]) == Parsed([], None)
  {
  }

  /** One step of the parser, in terms of offsets into the whole field area. */
  lemma ParseFieldsAt(extra: bytes, cursor: nat)
    requires cursor < |extra|
    ensures ParseFields(extra[cursor..]) ==
      if |extra| - cursor < 4 then Parsed([], Some(TruncatedExtraHeader))
      else
        var end := cursor + 4 + Le(extra[cursor + 2..cursor + 4]);
        if end > |extra| then Parsed([], Some(TruncatedExtraPayload))
        else
          var rest := ParseFields(extra[end..]);
          Parsed([Field(Le(extra[cursor..cursor + 2]), extra[cursor + 4..end])] + rest.fields, rest.error)
  {
    var here := extra[cursor..];
    if |here| >= 4 {
      SliceOfSuffix(extra, cursor, 0, 2);
      SliceOfSuffix(extra, cursor, 2, 4);
      var size := Le(here[2..4]);
      if 4 + size <= |here| {
        SliceOfSuffix(extra, cursor, 4, 4 + size);
        assert here[4 + size..] == extra[cursor + 4 + size..];
      }
    }
  }

  function PrintField(f: Field): bytes {
    ToLe(f.id, 2) + ToLe(|f.data|, 2) + f.data
  }

  function PrintFields(fields: seq<Field>): bytes {
    if fields == [] then [] else PrintField(fields[0]) + PrintFields(fields[1..])
  }

  predicate Printable(fields: seq<Field>) {
    forall f :: f in fields ==> f.id < Pow256(2) && |f.data| < Pow256(2)
  }

  lemma {:induction false} ParseOfPrint(fields: seq<Field>)
    requires Printable(fields)
    ensures ParseFields(PrintFields(fields)) == Parsed(fields, None)
  {
    if fields != [] {
      var f, b := fields[0], PrintFields(fields);
      LeOfToLe(f.id, 2);
      LeOfToLe(|f.data|, 2);
      assert b[..2] == ToLe(f.id, 2) && b[2..4] == ToLe(|f.data|, 2);
      assert b[4..4 + |f.data|] == f.data && b[4 + |f.data|..] == PrintFields(fields[1..]);
      ParseOfPrint(fields[1..]);
    }
  }

  lemma FirstParsed(extra: bytes) returns (f: Field, rest: bytes)
    requires extra != [] && ParseFields(extra).error.None?
    ensures extra == ToLe(f.id, 2) + ToLe(|f.data|, 2) + f.data + rest
    ensures f.id < Pow256(2) && |f.data| < Pow256(2)
    ensures ParseFields(extra) == Parsed([f] + ParseFields(rest).fields, ParseFields(rest).error)
  {
    var id, size := extra[..2], extra[2..4];
    var n := Le(size);
    f, rest := Field(Le(id), extra[4..4 + n]), extra[4 + n..];
    ToLeOfLe(id);
    ToLeOfLe(size);
    LeBound(id);
    LeBound(size);
  }

  lemma {:induction false} PrintOfParse(extra: bytes)
    requires ParseFields(extra).error.None?
    ensures Printable(ParseFields(extra).fields)
    ensures PrintFields(ParseFields(extra).fields) == extra
    decreases |extra|
  {
    if extra == [] {
      ParseNothing();
    } else {
      hide ParseFields;
      var f, rest := FirstParsed(extra);
      PrintOfParse(rest);
      var tail := ParseFields(rest).fields;
      assert ([f] + tail)[1..] == tail;
      assert PrintFields([f] + tail) == PrintField(f) + PrintFields(tail);
    }
  }

  function RequiredValues(
    rawUncompressed: nat, rawCompressed: nat, uncompressed: nat, compressed: nat,
    rawOffset: Option<nat>, offset: Option<nat>, rawDisk: Option<nat>): seq<Required>
  {
    (if rawUncompressed == UINT32_MAX then [Required(8, uncompressed)] else []) +
    (if rawCompressed == UINT32_MAX then [Required(8, compressed)] else []) +
    (if rawOffset == Some(UINT32_MAX) && offset.Some? then [Required(8, offset.value)] else []) +
    (if rawDisk == Some(UINT16_MAX) then [Required(4, 0)] else [])
  }

  /** What comparing the required values with the payload bytes yields. */
  function CheckValues(required: seq<Required>, data: bytes): Option<ExtraError> {
    if required == [] then if data == [] then None else Some(Zip64ExtraTrailingData)
    else if required[0].width > |data| then Some(TruncatedZip64Extra)
    else if Le(data[..required[0].width]) != required[0].value then Some(Zip64ValueMismatch)
    else CheckValues(required[1..], data[required[0].width..])
  }

  function ExtraErrorOf(extra: bytes, required: seq<Required>): Option<ExtraError> {
    var parsed := ParseFields(extra);
    if parsed.error.Some? then parsed.error
    else if exists f :: f in parsed.fields && f.id != ZIP64_EXTRA_ID then Some(UnapprovedExtraField)
    else if |parsed.fields| > 1 then Some(DuplicateZip64Extra)
    else if required == [] then
      if parsed.fields != [] then Some(UnnecessaryExtraField) else None
    else if |parsed.fields| != 1 then Some(MissingZip64Extra)
    else CheckValues(required, parsed.fields[0].data)
  }

  method Zip64ExtraError(
    extra: bytes, rawUncompressed: nat, rawCompressed: nat, uncompressed: nat, compressed: nat,
    rawOffset: Option<nat>, offset: Option<nat>, rawDisk: Option<nat>) returns (error: Option<ExtraError>)
    ensures error == ExtraErrorOf(extra,
      RequiredValues(rawUncompressed, rawCompressed, uncompressed, compressed, rawOffset, offset, rawDisk))
  {
    hide ParseFields;
    var fields, parseError := ZipExtraFields(extra);
    if parseError.Some? {
      return parseError;
    }
    if exists f :: f in fields && f.id != ZIP64_EXTRA_ID {
      return Some(UnapprovedExtraField);
    }
    if |fields| > 1 {
      return Some(DuplicateZip64Extra);
    }
    var required := RequiredValues(
      rawUncompressed, rawCompressed, uncompressed, compressed, rawOffset, offset, rawDisk);
    if required == [] {
      return if fields != [] then Some(UnnecessaryExtraField) else None;
    }
    if |fields| != 1 {
      return Some(MissingZip64Extra);
    }
    var data := fields[0].data;
    var cursor := 0;
    for i := 0 to |required|
      invariant 0 <= cursor <= |data|
      invariant CheckValues(required, data) == CheckValues(required[i..], data[cursor..])
    {
      var width := required[i].width;
      assert required[i..][1..] == required[i + 1..];
      if cursor + width > |data| {
        return Some(TruncatedZip64Extra);
      }
      assert data[cursor..][..width] == data[cursor..cursor + width];
      if Le(data[cursor..cursor + width]) != required[i].value {
        return Some(Zip64ValueMismatch);
      }
      assert data[cursor..][width..] == data[cursor + width..];
      cursor := cursor + width;
    }
    assert required[|required|..] == [];
    if cursor != |data| {
      return Some(Zip64ExtraTrailingData);
    }
    return None;
  }

  /** The payload of the field the packer writes for the required values. */
  function Payload(required: seq<Required>): bytes {
    if required == [] then [] else ToLe(required[0].value, required[0].width) + Payload(required[1..])
  }

  function CanonicalExtra(required: seq<Required>): bytes {
    if required == [] then []
    else ToLe(ZIP64_EXTRA_ID, 2) + ToLe(|Payload(required)|, 2) + Payload(required)
  }

  ghost predicate Representable(required: seq<Required>) {
    forall r :: r in required ==> r.value < Pow256(r.width)
  }

  lemma {:induction false} CheckValuesExact(required: seq<Required>, data: bytes)
    ensures CheckValues(required, data).None? <==> Representable(required) && data == Payload(required)
  {
    if required != [] {
      var r, w := required[0], required[0].width;
      if w <= |data| {
        var head, tail := data[..w], data[w..];
        CheckValuesExact(required[1..], tail);
        assert Representable(required) <==> r.value < Pow256(w) && Representable(required[1..]);
        if Le(head) == r.value {
          ToLeOfLe(head);
          LeBound(head);
          assert head + tail == data;
        }
        if Representable(required) && data == Payload(required) {
          LeOfToLe(r.value, w);
          assert head == ToLe(r.value, w) && tail == Payload(required[1..]);
        }
      }
    }
  }

  lemma {:induction false} PayloadLength(required: seq<Required>)
    requires forall r :: r in required ==> r.width <= 8
    ensures |Payload(required)| <= 8 * |required|
  {
    if required != [] {
      assert required[0] in required;
      PayloadLength(required[1..]);
    }
  }

  /**
   The ZIP64 extra field is unique: the check passes exactly when the bytes are the one
   canonical encoding of the saturated fields, and no bytes at all when none is saturated.
   */
  lemma ExtraIsCanonical(extra: bytes, required: seq<Required>)
    requires |required| <= 4 && forall r :: r in required ==> r.width <= 8
    ensures ExtraErrorOf(extra, required).None? <==>
      Representable(required) && extra == CanonicalExtra(required)
  {
    var parsed := ParseFields(extra);
    var field := Field(ZIP64_EXTRA_ID, Payload(required));
    PayloadLength(required);
    Pow256Values();
    assert PrintFields([field]) == PrintField(field) + PrintFields([]) == PrintField(field);
    if required == [] {
      if parsed.error.None? {
        PrintOfParse(extra);
      }
    } else {
      if parsed.error.None? && |parsed.fields| == 1 {
        PrintOfParse(extra);
        CheckValuesExact(required, parsed.fields[0].data);
        assert parsed.fields[0] in parsed.fields && parsed.fields == [parsed.fields[0]];
      }
      if Representable(required) && extra == CanonicalExtra(required) {
        ParseOfPrint([field]);
        CheckValuesExact(required, field.data);
      }
    }
  }
}

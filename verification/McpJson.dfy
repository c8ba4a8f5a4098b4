/** Parsed request JSON: the explicit-stack depth check and the declarative schema check. */
module McpJson {
  import opened Utf8

  /**
   JSON as the request loader builds it. Integral decimals become integers there, so
   `Fraction` holds only numbers that are not whole.
   */
  datatype Json =
    | Null
    | Bool(b: bool)
    | Number(n: int)
    | Fraction(r: real)
    | Str(s: Text)
    | Arr(items: seq<Json>)
    | Obj(members: seq<Member>)

  datatype Member = Member(key: Text, value: Json)

  const MAX_JSON_DEPTH: nat := 64

  function Max(a: nat, b: nat): nat {
    if a >= b then a else b
  }

  /** Nesting depth: 1 for a scalar or an empty container. */
  function Depth(j: Json): (d: nat)
    ensures d >= 1
    decreases j, 1
  {
    match j
    case Arr(items) => 1 + DepthOfItems(items)
    case Obj(members) => 1 + DepthOfMembers(members)
    case _ => 1
  }

  function DepthOfItems(items: seq<Json>): nat
    decreases items, 0
  {
    if items == [] then 0 else Max(Depth(items[0]), DepthOfItems(items[1..]))
  }

  function DepthOfMembers(members: seq<Member>): nat
    decreases members, 0
  {
    if members == [] then 0 else Max(Depth(members[0].value), DepthOfMembers(members[1..]))
  }

  function Size(j: Json): (n: nat)
    ensures n >= 1
    decreases j, 1
  {
    match j
    case Arr(items) => 1 + SizeOfItems(items)
    case Obj(members) => 1 + SizeOfMembers(members)
    case _ => 1
  }

  function SizeOfItems(items: seq<Json>): nat
    decreases items, 0
  {
    if items == [] then 0 else Size(items[0]) + SizeOfItems(items[1..])
  }

  function SizeOfMembers(members: seq<Member>): nat
    decreases members, 0
  {
    if members == [] then 0 else Size(members[0].value) + SizeOfMembers(members[1..])
  }

  /** A pending value and the depth it stands at. */
  datatype Pending = Pending(value: Json, depth: nat)

  function ItemsAt(items: seq<Json>, depth: nat): (stack: seq<Pending>) {
    if items == [] then [] else [Pending(items[0], depth)] + ItemsAt(items[1..], depth)
  }

  function MembersAt(members: seq<Member>, depth: nat): (stack: seq<Pending>) {
    if members == [] then [] else [Pending(members[0].value, depth)] + MembersAt(members[1..], depth)
  }

  /** Depth the deepest pending value reaches, and the total number of values pending. */
  ghost function Reach(stack: seq<Pending>): nat {
    if stack == [] then 0
    else Max(stack[0].depth + Depth(stack[0].value) - 1, Reach(stack[1..]))
  }

  ghost function Work(stack: seq<Pending>): nat {
    if stack == [] then 0 else Size(stack[0].value) + Work(stack[1..])
  }

  lemma {:induction false} StackAppend(a: seq<Pending>, b: seq<Pending>)
    ensures Reach(a + b) == Max(Reach(a), Reach(b))
    ensures Work(a + b) == Work(a) + Work(b)
  {
    if a == [] {
      assert a + b == b;
    } else {
      assert (a + b)[1..] == a[1..] + b;
      StackAppend(a[1..], b);
    }
  }

  lemma {:induction false} ItemsReach(items: seq<Json>, depth: nat)
    ensures Reach(ItemsAt(items, depth)) == if items == [] then 0 else depth + DepthOfItems(items) - 1
    ensures Work(ItemsAt(items, depth)) == SizeOfItems(items)
  {
    if items != [] {
      ItemsReach(items[1..], depth);
      assert ItemsAt(items, depth)[1..] == ItemsAt(items[1..], depth);
    }
  }

  lemma {:induction false} MembersReach(members: seq<Member>, depth: nat)
    ensures Reach(MembersAt(members, depth)) == if members == [] then 0 else depth + DepthOfMembers(members) - 1
    ensures Work(MembersAt(members, depth)) == SizeOfMembers(members)
  {
    if members != [] {
      MembersReach(members[1..], depth);
      assert MembersAt(members, depth)[1..] == MembersAt(members[1..], depth);
    }
  }

  lemma PopReach(stack: seq<Pending>)
    requires stack != []
    ensures var rest, top := stack[..|stack| - 1], stack[|stack| - 1];
      && Reach(stack) == Max(Reach(rest), top.depth + Depth(top.value) - 1)
      && Work(stack) == Work(rest) + Size(top.value)
  {
    var rest, top := stack[..|stack| - 1], stack[|stack| - 1];
    assert stack == rest + [top];
    StackAppend(rest, [top]);
    assert [top][1..] == [];
  }

  /** The walker reports an error exactly when some value is nested deeper than the limit. */
  method RequestJsonDepthError(value: Json) returns (tooDeep: bool)
    ensures tooDeep <==> Depth(value) > MAX_JSON_DEPTH
  {
    hide Depth, Size, Max;
    var stack := [Pending(value, 1)];
    SingleReach(value);
    while stack != []
      invariant Depth(value) > MAX_JSON_DEPTH <==> Reach(stack) > MAX_JSON_DEPTH
      decreases Work(stack)
    {
      PopReach(stack);
      var top := stack[|stack| - 1];
      stack := stack[..|stack| - 1];
      MaxAbove(Reach(stack), top.depth + Depth(top.value) - 1);
      DepthAndSize(top.value);
      if top.depth > MAX_JSON_DEPTH {
        return true;
      }
      if top.value.Obj? {
        MembersReach(top.value.members, top.depth + 1);
        StackAppend(stack, MembersAt(top.value.members, top.depth + 1));
        MaxAbove(Reach(stack), Reach(MembersAt(top.value.members, top.depth + 1)));
        stack := stack + MembersAt(top.value.members, top.depth + 1);
      } else if top.value.Arr? {
        ItemsReach(top.value.items, top.depth + 1);
        StackAppend(stack, ItemsAt(top.value.items, top.depth + 1));
        MaxAbove(Reach(stack), Reach(ItemsAt(top.value.items, top.depth + 1)));
        stack := stack + ItemsAt(top.value.items, top.depth + 1);
      }
    }
    assert Reach([]) == 0;
    return false;
  }

  lemma SingleReach(value: Json)
    ensures Reach([Pending(value, 1)]) == Depth(value)
  {
    assert [Pending(value, 1)][1..] == [];
  }

  lemma MaxAbove(a: nat, b: nat)
    ensures Max(a, b) > MAX_JSON_DEPTH <==> a > MAX_JSON_DEPTH || b > MAX_JSON_DEPTH
  {
  }

  lemma DepthAndSize(j: Json)
    ensures j.Arr? ==> Size(j) == 1 + SizeOfItems(j.items) && Depth(j) == 1 + DepthOfItems(j.items)
    ensures j.Obj? ==> Size(j) == 1 + SizeOfMembers(j.members) && Depth(j) == 1 + DepthOfMembers(j.members)
    ensures (j.Arr? && j.items == []) || (j.Obj? && j.members == []) ==> Depth(j) == 1
    ensures !j.Arr? && !j.Obj? ==> Depth(j) == 1
    ensures Size(j) >= 1
  {
  }

  // ----- schemas -----

  datatype TypeName = ObjectType | ArrayType | StringType | BooleanType | IntegerType | NumberType | OtherType

  datatype Additional = Allowed | Forbidden | Checked(schema: Schema)

  datatype Property = Property(name: Text, schema: Schema)

  /** The keywords the validator reads; a keyword it does not find, or of another type, is absent. */
  datatype Schema = Schema(
    types: Option<seq<TypeName>>,
    enumValues: Option<seq<Json>>,
    required: seq<Text>,
    maxProperties: Option<int>,
    properties: seq<Property>,
    additional: Additional,
    minItems: Option<int>,
    maxItems: Option<int>,
    items: Option<Schema>,
    minLength: Option<int>,
    maxLength: Option<int>,
    maxUtf8Bytes: Option<int>,
    pattern: Option<Text>,
    minimum: Option<real>,
    maximum: Option<real>)

  type Matcher = (Text, Text) -> bool

  predicate TypeMatches(value: Json, t: TypeName) {
    match t
    case ObjectType => value.Obj?
    case ArrayType => value.Arr?
    case StringType => value.Str?
    case BooleanType => value.Bool?
    case IntegerType => value.Number?
    case NumberType => value.Number? || value.Fraction?
    case OtherType => false
  }

  /** Python `==` between JSON values: booleans are the numbers 0 and 1. */
  predicate PyEq(a: Json, b: Json)
    decreases a
  {
    match (a, b)
    case (Bool(x), Number(n)) => n == (if x then 1 else 0)
    case (Number(n), Bool(x)) => n == (if x then 1 else 0)
    case (Arr(xs), Arr(ys)) => |xs| == |ys| && forall i :: 0 <= i < |xs| ==> PyEq(xs[i], ys[i])
    case (Obj(xs), Obj(ys)) =>
      |xs| == |ys| && forall m :: m in xs ==> exists o :: o in ys && o.key == m.key && PyEq(m.value, o.value)
    case _ => a == b
  }

  function NumericValue(value: Json): Option<real> {
    match value
    case Number(n) => Some(n as real)
    case Fraction(r) => Some(r)
    case _ => None
  }

  datatype Place = Key(key: Text) | Index(index: nat)
  type Path = seq<Place>

  datatype Rule =
    | WrongType | NotInEnum | Missing(key: Text) | TooManyProperties | NotAllowed
    | TooFewItems | TooManyItems | TooShort | TooLong | NotUtf8Text | TooManyBytes
    | PatternMismatch | TooSmall | TooLarge

  datatype Problem = Problem(path: Path, rule: Rule)

  function Declared(properties: seq<Property>, key: Text): (s: Option<Schema>)
    ensures s.Some? <==> exists p :: p in properties && p.name == key
    ensures s.Some? ==> Property(key, s.value) in properties
  {
    if properties == [] then None
    else if properties[0].name == key then Some(properties[0].schema)
    else Declared(properties[1..], key)
  }

  predicate HasKey(members: seq<Member>, key: Text) {
    exists m :: m in members && m.key == key
  }

  predicate Exceeds(value: int, limit: Option<int>) {
    limit.Some? && value > limit.value
  }

  predicate FallsShort(value: int, limit: Option<int>) {
    limit.Some? && value < limit.value
  }

  function FirstMissing(required: seq<Text>, members: seq<Member>): (k: Option<Text>)
    ensures k.None? <==> forall key :: key in required ==> HasKey(members, key)
  {
    if required == [] then None
    else if !HasKey(members, required[0]) then Some(required[0])
    else FirstMissing(required[1..], members)
  }

  /** `_json_schema_error`: the first rule the value breaks, in the order of the source. */
  function JsonSchemaError(matches: Matcher, value: Json, schema: Schema, path: Path): Option<Problem>
    decreases value, 2
  {
    if schema.types.Some? && !exists t :: t in schema.types.value && TypeMatches(value, t)
    then Some(Problem(path, WrongType))
    else if schema.enumValues.Some? && !exists e :: e in schema.enumValues.value && PyEq(value, e)
    then Some(Problem(path, NotInEnum))
    else
      match value
      case Obj(members) =>
        var missing := FirstMissing(schema.required, members);
        if missing.Some? then Some(Problem(path, Missing(missing.value)))
        else if Exceeds(|members|, schema.maxProperties) then Some(Problem(path, TooManyProperties))
        else MembersError(matches, members, schema, path)
      case Arr(items) =>
        if FallsShort(|items|, schema.minItems) then Some(Problem(path, TooFewItems))
        else if Exceeds(|items|, schema.maxItems) then Some(Problem(path, TooManyItems))
        else if schema.items.Some? then ItemsError(matches, items, schema.items.value, path, 0)
        else None
      case Str(s) => StringError(matches, s, schema, path)
      case Number(n) => NumericError(n as real, schema, path)
      case Fraction(r) => NumericError(r, schema, path)
      case _ => None
  }

  function MembersError(matches: Matcher, members: seq<Member>, schema: Schema, path: Path): Option<Problem>
    decreases members, 1
  {
    if members == [] then None
    else
      var first := MemberError(matches, members[0], schema, path);
      if first.Some? then first else MembersError(matches, members[1..], schema, path)
  }

  function MemberError(matches: Matcher, m: Member, schema: Schema, path: Path): Option<Problem>
    decreases m, 0
  {
    var child := Declared(schema.properties, m.key);
    if child.Some? then JsonSchemaError(matches, m.value, child.value, path + [Key(m.key)])
    else
      match schema.additional
      case Forbidden => Some(Problem(path + [Key(m.key)], NotAllowed))
      case Checked(s) => JsonSchemaError(matches, m.value, s, path + [Key(m.key)])
      case Allowed => None
  }

  function ItemsError(matches: Matcher, items: seq<Json>, schema: Schema, path: Path, index: nat): Option<Problem>
    decreases items, 1
  {
    if items == [] then None
    else
      var first := JsonSchemaError(matches, items[0], schema, path + [Index(index)]);
      if first.Some? then first else ItemsError(matches, items[1..], schema, path, index + 1)
  }

  function StringError(matches: Matcher, s: Text, schema: Schema, path: Path): Option<Problem> {
    if FallsShort(|s|, schema.minLength) then Some(Problem(path, TooShort))
    else if Exceeds(|s|, schema.maxLength) then Some(Problem(path, TooLong))
    else if schema.maxUtf8Bytes.Some? && !Encodable(s) then Some(Problem(path, NotUtf8Text))
    else if Exceeds(|Encode(s)|, schema.maxUtf8Bytes) then Some(Problem(path, TooManyBytes))
    else if schema.pattern.Some? && !matches(schema.pattern.value, s) then Some(Problem(path, PatternMismatch))
    else None
  }

  function NumericError(r: real, schema: Schema, path: Path): Option<Problem> {
    if schema.minimum.Some? && r < schema.minimum.value then Some(Problem(path, TooSmall))
    else if schema.maximum.Some? && r > schema.maximum.value then Some(Problem(path, TooLarge))
    else None
  }

  /** What it means for a value to satisfy a schema, without any order of checking. */
  ghost predicate Satisfies(matches: Matcher, value: Json, schema: Schema)
    decreases value
  {
    && (schema.types.Some? ==> exists t :: t in schema.types.value && TypeMatches(value, t))
    && (schema.enumValues.Some? ==> exists e :: e in schema.enumValues.value && PyEq(value, e))
    && (value.Obj? ==>
      && (forall key :: key in schema.required ==> HasKey(value.members, key))
      && (schema.maxProperties.Some? ==> |value.members| <= schema.maxProperties.value)
      && (forall m :: m in value.members ==>
        match Declared(schema.properties, m.key)
        case Some(child) => Satisfies(matches, m.value, child)
        case None =>
          !schema.additional.Forbidden? &&
          (schema.additional.Checked? ==> Satisfies(matches, m.value, schema.additional.schema))))
    && (value.Arr? ==>
      && (schema.minItems.Some? ==> |value.items| >= schema.minItems.value)
      && (schema.maxItems.Some? ==> |value.items| <= schema.maxItems.value)
      && (schema.items.Some? ==> forall x :: x in value.items ==> Satisfies(matches, x, schema.items.value)))
    && (value.Str? ==>
      && (schema.minLength.Some? ==> |value.s| >= schema.minLength.value)
      && (schema.maxLength.Some? ==> |value.s| <= schema.maxLength.value)
      && (schema.maxUtf8Bytes.Some? ==> Encodable(value.s) && |Encode(value.s)| <= schema.maxUtf8Bytes.value)
      && (schema.pattern.Some? ==> matches(schema.pattern.value, value.s)))
    && (NumericValue(value).Some? ==>
      && (schema.minimum.Some? ==> NumericValue(value).value >= schema.minimum.value)
      && (schema.maximum.Some? ==> NumericValue(value).value <= schema.maximum.value))
  }

  /** The early-return validator is silent exactly on the values that satisfy the schema. */
  lemma {:induction false} SchemaErrorIsExact(matches: Matcher, value: Json, schema: Schema, path: Path)
    ensures JsonSchemaError(matches, value, schema, path).None? <==> Satisfies(matches, value, schema)
    decreases value, 2
  {
    hide PyEq, Encode, Encodable, TypeMatches, HasKey, Declared;
    if value.Obj? {
      MembersErrorIsExact(matches, value.members, schema, path);
    } else if value.Arr? && schema.items.Some? {
      ItemsErrorIsExact(matches, value.items, schema.items.value, path, 0);
    }
  }

  ghost predicate MemberFits(matches: Matcher, m: Member, schema: Schema) {
    match Declared(schema.properties, m.key)
    case Some(child) => Satisfies(matches, m.value, child)
    case None =>
      !schema.additional.Forbidden? &&
      (schema.additional.Checked? ==> Satisfies(matches, m.value, schema.additional.schema))
  }

  lemma {:induction false} MembersErrorIsExact(matches: Matcher, members: seq<Member>, schema: Schema, path: Path)
    ensures MembersError(matches, members, schema, path).None? <==>
      forall m :: m in members ==> MemberFits(matches, m, schema)
    decreases members, 1
  {
    hide Satisfies, Declared, JsonSchemaError;
    if members != [] {
      var m := members[0];
      assert forall x :: x in members <==> x == m || x in members[1..];
      MembersErrorIsExact(matches, members[1..], schema, path);
      var child := Declared(schema.properties, m.key);
      if child.Some? {
        SchemaErrorIsExact(matches, m.value, child.value, path + [Key(m.key)]);
      } else if schema.additional.Checked? {
        SchemaErrorIsExact(matches, m.value, schema.additional.schema, path + [Key(m.key)]);
      }
      assert MemberError(matches, m, schema, path).None? <==> MemberFits(matches, m, schema);
    }
  }

  lemma {:induction false} ItemsErrorIsExact(matches: Matcher, items: seq<Json>, schema: Schema, path: Path, index: nat)
    ensures ItemsError(matches, items, schema, path, index).None? <==>
      forall x :: x in items ==> Satisfies(matches, x, schema)
    decreases items, 1
  {
    hide Satisfies, JsonSchemaError;
    if items != [] {
      assert forall x :: x in items <==> x == items[0] || x in items[1..];
      SchemaErrorIsExact(matches, items[0], schema, path + [Index(index)]);
      ItemsErrorIsExact(matches, items[1..], schema, path, index + 1);
    }
  }
}

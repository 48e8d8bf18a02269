/**
 * The validator description that `addValidator` builds (a Joi schema, as data) and the
 * compile step itself as a pure function of the component tree, the include map of the
 * sanitize pass and the submission data. Only the description is modelled; Joi's own
 * checking of a value against it is not.
 */
module JoiModel {
  import opened JsValues
  import opened Components

  /** What Joi treats as an absent value: nothing, `''` (`.empty('')`) or `null` (`.empty(null)`). */
  datatype EmptyMode = NoEmpty | EmptyString | EmptyNull

  /** The rules attached to a schema, in the order they are attached. */
  datatype Check =
    | Email
    | MinLength(limit: real)
    | MaxLength(limit: real)
    | Integer
    | Precision(digits: nat)
    | Min(limit: real)
    | Max(limit: real)
    | Greater(limit: real)
    | Less(limit: real)
    | Regex(pattern: string)
    | CustomRule(component: Component, data: map<string, Value>)
    | JsonRule(component: Component, data: map<string, Value>)

  datatype Kind =
    | StringType
    | NumberType
    | AnyType
    | ObjectType(keys: map<string, Schema>)
    | ArrayType(items: Schema, sparse: bool)

  /**
   * A Joi schema: its type, empty mode, `.required()`, `.allow(null)`,
   * `.options({stripUnknown: false})`, `.meta({primaryKey: true})` and its rules.
   */
  datatype Schema = Schema(
    kind: Kind,
    empty: EmptyMode,
    required: bool,
    allowNull: bool,
    keepUnknown: bool,
    primaryKey: bool,
    checks: seq<Check>)

  function Plain(kind: Kind, empty: EmptyMode): Schema
  {
    Schema(kind, empty, false, false, false, false, [])
  }

  function Attach(s: Schema, c: Check): Schema
  {
    s.(checks := s.checks + [c])
  }

  /** `JoiX.string().meta({primaryKey: true})`, the schema of `_id`. */
  function IdSchema(): Schema
  {
    Plain(StringType, NoEmpty).(primaryKey := true)
  }

  /** `JoiX.object().keys(keys)`. */
  function ObjectOf(keys: map<string, Schema>): Schema
  {
    Plain(ObjectType(keys), NoEmpty)
  }

  /** `JoiX.array().items(JoiX.object().keys(keys)).options({stripUnknown: false})`. */
  function GridOf(keys: map<string, Schema>): Schema
  {
    Plain(ArrayType(ObjectOf(keys), false), NoEmpty).(keepUnknown := true)
  }

  /** `JoiX.array().sparse().items(s.allow(null)).options({stripUnknown: false})`. */
  function MultipleOf(s: Schema): Schema
  {
    Plain(ArrayType(s.(allowNull := true), true), NoEmpty).(keepUnknown := true)
  }

  // ---------------------------------------------------------------------------
  // Field types
  // ---------------------------------------------------------------------------

  /** A length limit applies when it is a number that is not negative. */
  predicate LengthLimit(v: Value)
  {
    v.Num? && v.n >= 0.0
  }

  function LengthChecks(v: Validate): seq<Check>
  {
    (if LengthLimit(v.minLength) then [MinLength(v.minLength.n)] else [])
    + (if LengthLimit(v.maxLength) then [MaxLength(v.maxLength.n)] else [])
  }

  /** textfield, textarea and phonenumber: a string where '' is absent, with optional length limits. */
  function TextSchema(v: Option<Validate>): (r: Schema)
    ensures r.kind == StringType && r.empty == EmptyString && !r.required
    ensures v.None? ==> r.checks == []
  {
    var base := Plain(StringType, EmptyString);
    if v.Some? then base.(checks := LengthChecks(v.value)) else base
  }

  /** email: a string in email format where '' is absent. */
  function EmailSchema(): Schema
  {
    Plain(StringType, EmptyString).(checks := [Email])
  }

  /** signature: a string where '' is absent. */
  function SignatureSchema(): Schema
  {
    Plain(StringType, EmptyString)
  }

  /** The rule a number's `step` implies: none for an absent, empty or 'any' step; else integer or a precision. */
  function StepCheck(step: Option<string>): (r: Option<Check>)
    ensures r.None? <==> step.None? || step.value == "" || step.value == "any"
    ensures r.Some? ==> r.value.Integer? || r.value.Precision?
  {
    if step.Some? && step.value != "" && step.value != "any" then
      var parts := Split(step.value, '.');
      if |parts| == 1 then Some(Integer) else Some(Precision(|parts[1]|))
    else None
  }

  /** min, max, greater and less, in this order, each only when it is a number. */
  function BoundChecks(v: Validate): seq<Check>
  {
    (if v.min.Num? then [Min(v.min.n)] else [])
    + (if v.max.Num? then [Max(v.max.n)] else [])
    + (if v.greater.Num? then [Greater(v.greater.n)] else [])
    + (if v.less.Num? then [Less(v.less.n)] else [])
  }

  /** Each bound is checked exactly when it is a number, and the bounds never make a number integer-only. */
  lemma BoundsAttach(v: Validate, x: real)
    ensures Min(x) in BoundChecks(v) <==> v.min == Num(x)
    ensures Max(x) in BoundChecks(v) <==> v.max == Num(x)
    ensures Greater(x) in BoundChecks(v) <==> v.greater == Num(x)
    ensures Less(x) in BoundChecks(v) <==> v.less == Num(x)
    ensures Integer !in BoundChecks(v)
  {
    var a := if v.min.Num? then [Min(v.min.n)] else [];
    var b := if v.max.Num? then [Max(v.max.n)] else [];
    var c := if v.greater.Num? then [Greater(v.greater.n)] else [];
    var d := if v.less.Num? then [Less(v.less.n)] else [];
    assert BoundChecks(v) == a + b + c + d;
    assert forall y :: y in BoundChecks(v) <==> y in a || y in b || y in c || y in d;
  }

  /** number: a number where null is absent, with the step rule and then the bounds. */
  function NumberSchema(v: Option<Validate>): (r: Schema)
    ensures r.kind == NumberType && r.empty == EmptyNull && !r.required
    ensures v.None? ==> r.checks == []
    ensures forall p :: Regex(p) !in r.checks
  {
    var base := Plain(NumberType, EmptyNull);
    if v.None? then base
    else
      var step := StepCheck(v.value.step);
      base.(checks := (if step.Some? then [step.value] else []) + BoundChecks(v.value))
  }

  /** The text between the start of `t` and its first '.', or all of `t`. */
  function UpToDot(t: string): string
  {
    if '.' in t then t[..FirstIndex(t, '.')] else t
  }

  lemma SplitFirstPiece(t: string)
    ensures Split(t, '.')[0] == UpToDot(t)
  {
  }

  /**
   * A step with no '.' makes the number integer-only; a step with a '.' at index i sets the
   * precision to the number of characters after it up to the next '.' or the end.
   */
  lemma {:induction false} StepRule(s: string)
    requires s != "" && s != "any"
    ensures '.' !in s ==> StepCheck(Some(s)) == Some(Integer)
    ensures '.' in s ==>
      var i := FirstIndex(s, '.'); StepCheck(Some(s)) == Some(Precision(|UpToDot(s[i + 1..])|))
  {
    if '.' in s {
      var i := FirstIndex(s, '.');
      assert Split(s, '.') == [s[..i]] + Split(s[i + 1..], '.');
      SplitFirstPiece(s[i + 1..]);
    }
  }

  /** An absent, empty or 'any' step adds nothing. */
  lemma StepIgnored(step: Option<string>)
    requires step.None? || step.value == "" || step.value == "any"
    ensures StepCheck(step) == None
  {
  }

  /** A text field's length limits attach exactly when they are numbers that are not negative. */
  lemma TextLimits(v: Validate, n: real)
    ensures MinLength(n) in TextSchema(Some(v)).checks <==> v.minLength == Num(n) && n >= 0.0
    ensures MaxLength(n) in TextSchema(Some(v)).checks <==> v.maxLength == Num(n) && n >= 0.0
    ensures TextSchema(None).checks == []
    ensures TextSchema(Some(v)).kind == StringType && TextSchema(Some(v)).empty == EmptyString
  {
  }

  /** The numeric bounds attach exactly when they are numbers, and integer-only exactly for a dot-free step. */
  lemma NumberLimits(v: Validate, x: real)
    ensures Min(x) in NumberSchema(Some(v)).checks <==> v.min == Num(x)
    ensures Max(x) in NumberSchema(Some(v)).checks <==> v.max == Num(x)
    ensures Greater(x) in NumberSchema(Some(v)).checks <==> v.greater == Num(x)
    ensures Less(x) in NumberSchema(Some(v)).checks <==> v.less == Num(x)
    ensures Integer in NumberSchema(Some(v)).checks <==>
      v.step.Some? && v.step.value != "" && v.step.value != "any" && '.' !in v.step.value
    ensures NumberSchema(None).checks == [] && NumberSchema(Some(v)).empty == EmptyNull
  {
    BoundsAttach(v, x);
    var step := StepCheck(v.step);
    var steps := if step.Some? then [step.value] else [];
    assert NumberSchema(Some(v)).checks == steps + BoundChecks(v);
    if v.step.Some? && v.step.value != "" && v.step.value != "any" {
      SplitSingle(v.step.value, '.');
    }
  }

  // ---------------------------------------------------------------------------
  // The compile step
  // ---------------------------------------------------------------------------

  /** A call on the null validator of a layout component, which throws a TypeError. */
  datatype BuildError = NullValidator(key: string, operation: string)

  /**
   * What the compile step reads besides the tree: the included map of the sanitize pass, the
   * submission data the custom and json rules close over, and whether `new RegExp` accepts a pattern.
   */
  datatype Env = Env(included: map<string, bool>, data: map<string, Value>, regexCompiles: string -> bool)

  /** A null component, or one whose own key the sanitize pass excluded. */
  predicate Excluded(c: Component, included: map<string, bool>)
  {
    c.Missing? || (c.key.Some? && c.key.value in included && !included[c.key.value])
  }

  /** The schema after the type switch, and the component's own validator (null for layout types). */
  datatype Built = Built(schema: map<string, Schema>, field: Option<Schema>)

  /** `fieldValidator.required().empty()`. */
  function Require(field: Option<Schema>, c: Component): Result<Option<Schema>, BuildError>
  {
    if field.None? then Err(NullValidator(KeyName(c), "required"))
    else Ok(Some(field.value.(required := true, empty := NoEmpty)))
  }

  /** `fieldValidator.custom(...)` / `fieldValidator.json(...)`. */
  function AttachRule(field: Option<Schema>, c: Component, op: string, rule: Check): Result<Option<Schema>, BuildError>
  {
    if field.None? then Err(NullValidator(KeyName(c), op)) else Ok(Some(Attach(field.value, rule)))
  }

  /**
   * The required, pattern, custom and json rules, in this order. Only the string type has
   * `.regex`: on a null or non-string validator, and for a pattern that does not compile, the
   * source catches the exception and attaches nothing.
   */
  function AttachRules(field: Option<Schema>, c: Component, data: map<string, Value>, regexCompiles: string -> bool)
    : (r: Result<Option<Schema>, BuildError>)
    ensures !RulesApply(c) ==> r == Ok(field)
    ensures field.Some? ==> r.Ok? && r.value.Some? && r.value.value.kind == field.value.kind
    ensures field.None? && r.Ok? ==> r.value.None?
  {
    if !RulesApply(c) then Ok(field)
    else
      var v := c.validate.value;
      var f1 :- if v.required then Require(field, c) else Ok(field);
      var f2 := if v.pattern != "" && regexCompiles(v.pattern) && f1.Some? && f1.value.kind.StringType? then
        Some(Attach(f1.value, Regex(v.pattern)))
      else f1;
      var f3 :- if v.custom != "" then AttachRule(f2, c, "custom", CustomRule(c, data)) else Ok(f2);
      if Truthy(v.json) then AttachRule(f3, c, "json", JsonRule(c, data)) else Ok(f3)
  }

  /** `multiple` turns the validator into a sparse array of items that also allow null. */
  function WrapMultiple(field: Option<Schema>, c: Component): (r: Result<Option<Schema>, BuildError>)
    requires c.Node?
    ensures !c.multiple ==> r == Ok(field)
    ensures c.multiple ==> (r.Ok? <==> field.Some?)
    ensures c.multiple && r.Ok? ==> r.value.Some? && r.value.value.kind == ArrayType(field.value.(allowNull := true), true)
  {
    if !c.multiple then Ok(field)
    else if field.None? then Err(NullValidator(KeyName(c), "allow"))
    else Ok(Some(MultipleOf(field.value)))
  }

  /** `addValidator(schema, component)`: the schema with the component's entries added. */
  function AddValidator(schema: map<string, Schema>, c: Component, env: Env): (r: Result<map<string, Schema>, BuildError>)
    ensures r.Ok? ==> schema.Keys <= r.value.Keys
    ensures r.Ok? && !Excluded(c, env.included) && HasKey(c) && !IsLayoutType(c.ctype) ==> c.key.value in r.value
    decreases c, 2
  {
    if Excluded(c, env.included) then Ok(schema)
    else
      var b :- Base(schema, c, env);
      var ruled :- AttachRules(b.field, c, env.data, env.regexCompiles);
      var field :- WrapMultiple(ruled, c);
      Ok(if HasKey(c) && field.Some? then b.schema[c.key.value := field.value] else b.schema)
  }

  /** The validator of a field type. */
  function FieldSchema(c: Component): (r: Schema)
    requires c.Node? && IsFieldType(c.ctype)
    ensures r.kind == if c.ctype == "number" then NumberType else StringType
    ensures r.empty == if c.ctype == "number" then EmptyNull else EmptyString
    ensures c.ctype == "email" ==> Email in r.checks
  {
    if IsTextType(c.ctype) then TextSchema(c.validate)
    else if c.ctype == "email" then EmailSchema()
    else if c.ctype == "number" then NumberSchema(c.validate)
    else SignatureSchema()
  }

  /** The type switch of `addValidator`. */
  function Base(schema: map<string, Schema>, c: Component, env: Env): (r: Result<Built, BuildError>)
    requires c.Node?
    ensures r.Ok? ==> (r.value.field.None? <==> IsLayoutType(c.ctype))
    ensures r.Ok? ==> schema.Keys <= r.value.schema.Keys
    ensures r.Ok? && (IsGridType(c.ctype) || c.ctype == "container" || IsFieldType(c.ctype)) ==> r.value.schema == schema
    decreases c, 1
  {
    if IsGridType(c.ctype) then
      var keys :- AddAll(map[], c.components, env);
      Ok(Built(schema, Some(GridOf(keys))))
    else if c.ctype == "container" then
      var keys :- AddAll(map[], c.components, env);
      Ok(Built(schema, Some(ObjectOf(keys))))
    else if IsLayoutType(c.ctype) then
      var s :- LayoutChildren(schema, c, env);
      Ok(Built(s, None))
    else if IsFieldType(c.ctype) then Ok(Built(schema, Some(FieldSchema(c))))
    else if c.tree then
      var keys :- AddAll(map[], c.components, env);
      Ok(Built(schema, Some(ObjectOf(keys))))
    else
      var s :- AddAll(schema, c.components, env);
      Ok(Built(s, Some(Plain(AnyType, NoEmpty))))
  }

  /** A layout component's children compiled into the enclosing schema: a table by rows, columns by column. */
  function LayoutChildren(schema: map<string, Schema>, c: Component, env: Env): (r: Result<map<string, Schema>, BuildError>)
    requires c.Node? && IsLayoutType(c.ctype)
    ensures r.Ok? ==> schema.Keys <= r.value.Keys
    decreases c, 0
  {
    if c.ctype == "table" then AddRows(schema, c.rows, env)
    else if c.ctype == "columns" then AddColumns(schema, c.columns, env)
    else AddAll(schema, c.components, env)
  }

  /** `components.forEach(addValidator)` into one schema, first to last; an exception stops it. */
  function AddAll(schema: map<string, Schema>, cs: seq<Component>, env: Env): (r: Result<map<string, Schema>, BuildError>)
    ensures r.Ok? ==> schema.Keys <= r.value.Keys
    decreases cs
  {
    if cs == [] then Ok(schema)
    else
      var s :- AddAll(schema, cs[..|cs| - 1], env);
      AddValidator(s, cs[|cs| - 1], env)
  }

  /** `columns.forEach(column => column.components.forEach(addValidator))`. */
  function AddColumns(schema: map<string, Schema>, cols: seq<Column>, env: Env): (r: Result<map<string, Schema>, BuildError>)
    ensures r.Ok? ==> schema.Keys <= r.value.Keys
    decreases cols
  {
    if cols == [] then Ok(schema)
    else
      var s :- AddColumns(schema, cols[..|cols| - 1], env);
      AddAll(s, cols[|cols| - 1].components, env)
  }

  /** `rows.forEach(row => row.forEach(column => ...))` of a table. */
  function AddRows(schema: map<string, Schema>, rows: seq<Row>, env: Env): (r: Result<map<string, Schema>, BuildError>)
    ensures r.Ok? ==> schema.Keys <= r.value.Keys
    decreases rows
  {
    if rows == [] then Ok(schema)
    else
      var s :- AddRows(schema, rows[..|rows| - 1], env);
      AddColumns(s, rows[|rows| - 1].cells, env)
  }

  /** An exception part-way through a list of components is the exception of the whole list. */
  lemma {:induction false} AddAllStops(schema: map<string, Schema>, cs: seq<Component>, i: nat, env: Env)
    requires i <= |cs| && AddAll(schema, cs[..i], env).Err?
    ensures AddAll(schema, cs, env) == AddAll(schema, cs[..i], env)
    decreases |cs| - i
  {
    if i < |cs| {
      assert cs[..i + 1][..i] == cs[..i];
      AddAllStops(schema, cs, i + 1, env);
    } else {
      assert cs[..i] == cs;
    }
  }

  lemma {:induction false} AddColumnsStops(schema: map<string, Schema>, cols: seq<Column>, i: nat, env: Env)
    requires i <= |cols| && AddColumns(schema, cols[..i], env).Err?
    ensures AddColumns(schema, cols, env) == AddColumns(schema, cols[..i], env)
    decreases |cols| - i
  {
    if i < |cols| {
      assert cols[..i + 1][..i] == cols[..i];
      AddColumnsStops(schema, cols, i + 1, env);
    } else {
      assert cols[..i] == cols;
    }
  }

  lemma {:induction false} AddRowsStops(schema: map<string, Schema>, rows: seq<Row>, i: nat, env: Env)
    requires i <= |rows| && AddRows(schema, rows[..i], env).Err?
    ensures AddRows(schema, rows, env) == AddRows(schema, rows[..i], env)
    decreases |rows| - i
  {
    if i < |rows| {
      assert rows[..i + 1][..i] == rows[..i];
      AddRowsStops(schema, rows, i + 1, env);
    } else {
      assert rows[..i] == rows;
    }
  }

  // ---------------------------------------------------------------------------
  // Unique registration: the order in which `this.unique[key] = component` runs
  // ---------------------------------------------------------------------------

  /** The components `addValidator` registers as unique, in the order it registers them. */
  function Uniques(c: Component, included: map<string, bool>): seq<Component>
    decreases c, 1
  {
    if Excluded(c, included) then []
    else (if c.unique then [c] else []) + ChildUniques(c, included)
  }

  function ChildUniques(c: Component, included: map<string, bool>): seq<Component>
    requires c.Node?
    decreases c, 0
  {
    if IsFieldType(c.ctype) then []
    else if c.ctype == "table" then UniquesRows(c.rows, included)
    else if c.ctype == "columns" then UniquesColumns(c.columns, included)
    else UniquesAll(c.components, included)
  }

  function UniquesAll(cs: seq<Component>, included: map<string, bool>): seq<Component>
    decreases cs
  {
    if cs == [] then [] else UniquesAll(cs[..|cs| - 1], included) + Uniques(cs[|cs| - 1], included)
  }

  function UniquesColumns(cols: seq<Column>, included: map<string, bool>): seq<Component>
    decreases cols
  {
    if cols == [] then [] else UniquesColumns(cols[..|cols| - 1], included) + UniquesAll(cols[|cols| - 1].components, included)
  }

  function UniquesRows(rows: seq<Row>, included: map<string, bool>): seq<Component>
    decreases rows
  {
    if rows == [] then [] else UniquesRows(rows[..|rows| - 1], included) + UniquesColumns(rows[|rows| - 1].cells, included)
  }

  /** Every component registered as unique is a non-null, included component flagged unique. */
  lemma {:induction false} UniquesAreFlagged(c: Component, included: map<string, bool>)
    ensures forall k :: 0 <= k < |Uniques(c, included)| ==>
      Uniques(c, included)[k].Node? && Uniques(c, included)[k].unique && !Excluded(Uniques(c, included)[k], included)
    decreases c, 1
  {
    if !Excluded(c, included) {
      ChildUniquesAreFlagged(c, included);
    }
  }

  lemma {:induction false} ChildUniquesAreFlagged(c: Component, included: map<string, bool>)
    requires c.Node?
    ensures forall k :: 0 <= k < |ChildUniques(c, included)| ==>
      ChildUniques(c, included)[k].Node? && ChildUniques(c, included)[k].unique && !Excluded(ChildUniques(c, included)[k], included)
    decreases c, 0
  {
    if IsFieldType(c.ctype) {
    } else if c.ctype == "table" {
      UniquesRowsAreFlagged(c.rows, included);
    } else if c.ctype == "columns" {
      UniquesColumnsAreFlagged(c.columns, included);
    } else {
      UniquesAllAreFlagged(c.components, included);
    }
  }

  lemma {:induction false} UniquesAllAreFlagged(cs: seq<Component>, included: map<string, bool>)
    ensures forall k :: 0 <= k < |UniquesAll(cs, included)| ==>
      UniquesAll(cs, included)[k].Node? && UniquesAll(cs, included)[k].unique && !Excluded(UniquesAll(cs, included)[k], included)
    decreases cs
  {
    if cs != [] {
      UniquesAllAreFlagged(cs[..|cs| - 1], included);
      UniquesAreFlagged(cs[|cs| - 1], included);
    }
  }

  lemma {:induction false} UniquesColumnsAreFlagged(cols: seq<Column>, included: map<string, bool>)
    ensures forall k :: 0 <= k < |UniquesColumns(cols, included)| ==>
      UniquesColumns(cols, included)[k].Node? && UniquesColumns(cols, included)[k].unique
      && !Excluded(UniquesColumns(cols, included)[k], included)
    decreases cols
  {
    if cols != [] {
      UniquesColumnsAreFlagged(cols[..|cols| - 1], included);
      UniquesAllAreFlagged(cols[|cols| - 1].components, included);
    }
  }

  lemma {:induction false} UniquesRowsAreFlagged(rows: seq<Row>, included: map<string, bool>)
    ensures forall k :: 0 <= k < |UniquesRows(rows, included)| ==>
      UniquesRows(rows, included)[k].Node? && UniquesRows(rows, included)[k].unique
      && !Excluded(UniquesRows(rows, included)[k], included)
    decreases rows
  {
    if rows != [] {
      UniquesRowsAreFlagged(rows[..|rows| - 1], included);
      UniquesColumnsAreFlagged(rows[|rows| - 1].cells, included);
    }
  }

  // ---------------------------------------------------------------------------
  // Properties of the compile step
  // ---------------------------------------------------------------------------

  /** A null or excluded component adds no schema entry and registers nothing. */
  lemma ExcludedAddsNothing(schema: map<string, Schema>, c: Component, env: Env)
    requires Excluded(c, env.included)
    ensures AddValidator(schema, c, env) == Ok(schema)
    ensures Uniques(c, env.included) == []
  {
  }

  /** A null validator either stays null through the rules or makes them throw. */
  lemma AttachRulesOnNull(c: Component, data: map<string, Value>, regexCompiles: string -> bool)
    requires c.Node?
    ensures AttachRules(None, c, data, regexCompiles).Ok? ==> AttachRules(None, c, data, regexCompiles).value == None
    ensures RulesApply(c) ==>
      (AttachRules(None, c, data, regexCompiles).Err? <==>
        c.validate.value.required || c.validate.value.custom != "" || Truthy(c.validate.value.json))
  {
  }

  /**
   * fieldset, panel, well, table and columns are transparent: when they compile, the result is
   * the enclosing schema with their children's entries added and no entry of their own.
   */
  lemma LayoutIsTransparent(schema: map<string, Schema>, c: Component, env: Env)
    requires c.Node? && !Excluded(c, env.included) && IsLayoutType(c.ctype)
    requires AddValidator(schema, c, env).Ok?
    ensures c.ctype == "table" ==> AddValidator(schema, c, env) == AddRows(schema, c.rows, env)
    ensures c.ctype == "columns" ==> AddValidator(schema, c, env) == AddColumns(schema, c.columns, env)
    ensures c.ctype != "table" && c.ctype != "columns" ==> AddValidator(schema, c, env) == AddAll(schema, c.components, env)
  {
    TypeClassesDisjoint(c.ctype);
    AttachRulesOnNull(c, env.data, env.regexCompiles);
    var b := Base(schema, c, env);
    assert b.Ok? && b.value.field.None? && b.value.schema == LayoutChildren(schema, c, env).value;
  }

  /**
   * A keyed container nests its children: its entry is an object of the children's entries,
   * compiled into a fresh map, and nothing else of the enclosing schema changes.
   */
  lemma ContainerNests(schema: map<string, Schema>, c: Component, env: Env)
    requires c.Node? && !Excluded(c, env.included) && HasKey(c) && !c.multiple
    requires c.ctype == "container" || (c.tree && !IsGridType(c.ctype) && !IsLayoutType(c.ctype) && !IsFieldType(c.ctype))
    requires AddValidator(schema, c, env).Ok?
    ensures AddAll(map[], c.components, env).Ok?
    ensures var m := AddValidator(schema, c, env).value; var k := c.key.value;
      k in m && m == schema[k := m[k]] && m[k].kind == ObjectType(AddAll(map[], c.components, env).value)
  {
    var b := Base(schema, c, env).value;
    assert b.field.Some? && b.schema == schema;
  }

  /** A keyed datagrid or editgrid is an array of objects of its children's entries, keeping unknown keys. */
  lemma GridNests(schema: map<string, Schema>, c: Component, env: Env)
    requires c.Node? && !Excluded(c, env.included) && HasKey(c) && !c.multiple && IsGridType(c.ctype)
    requires AddValidator(schema, c, env).Ok?
    ensures AddAll(map[], c.components, env).Ok?
    ensures var m := AddValidator(schema, c, env).value; var k := c.key.value;
      k in m && m == schema[k := m[k]] && m[k].keepUnknown
      && m[k].kind == ArrayType(ObjectOf(AddAll(map[], c.components, env).value), false)
  {
    var b := Base(schema, c, env).value;
    assert b.field.Some? && b.schema == schema;
  }

  /**
   * Any other type without `tree` flattens its children into the enclosing schema and, when
   * keyed, adds an entry that accepts any value.
   */
  lemma OtherTypeFlattens(schema: map<string, Schema>, c: Component, env: Env)
    requires c.Node? && !Excluded(c, env.included) && !c.tree && !c.multiple
    requires !IsGridType(c.ctype) && c.ctype != "container" && !IsLayoutType(c.ctype) && !IsFieldType(c.ctype)
    requires AddValidator(schema, c, env).Ok?
    ensures AddAll(schema, c.components, env).Ok?
    ensures var m := AddValidator(schema, c, env).value; var s := AddAll(schema, c.components, env).value;
      if HasKey(c) then c.key.value in m && m == s[c.key.value := m[c.key.value]] && m[c.key.value].kind == AnyType
      else m == s
  {
  }

  /** A field component adds exactly its own entry when it has a key, and nothing without one. */
  lemma FieldAddsOwnEntry(schema: map<string, Schema>, c: Component, env: Env)
    requires c.Node? && !Excluded(c, env.included) && IsFieldType(c.ctype)
    requires AddValidator(schema, c, env).Ok?
    ensures var m := AddValidator(schema, c, env).value;
      if HasKey(c) then c.key.value in m && m == schema[c.key.value := m[c.key.value]] else m == schema
    ensures Uniques(c, env.included) == if c.unique then [c] else []
    ensures HasKey(c) && !c.multiple && !RulesApply(c) ==> AddValidator(schema, c, env).value[c.key.value] == FieldSchema(c)
  {
    TypeClassesDisjoint(c.ctype);
  }

  /**
   * With `multiple` set, the entry is a sparse array, keeping unknown keys, whose items are the
   * component's own validator with its rules attached, made to allow null.
   */
  lemma MultipleWraps(schema: map<string, Schema>, c: Component, env: Env)
    requires c.Node? && !Excluded(c, env.included) && HasKey(c) && c.multiple
    requires AddValidator(schema, c, env).Ok?
    ensures Base(schema, c, env).Ok?
    ensures var ruled := AttachRules(Base(schema, c, env).value.field, c, env.data, env.regexCompiles);
      ruled.Ok? && ruled.value.Some? &&
      var m := AddValidator(schema, c, env).value; var k := c.key.value;
      k in m && m[k] == MultipleOf(ruled.value.value)
      && m[k].kind == ArrayType(ruled.value.value.(allowNull := true), true)
      && m[k].keepUnknown && !m[k].required && m[k].checks == []
    ensures IsFieldType(c.ctype) ==> AddValidator(schema, c, env).value[c.key.value].kind.items.kind == FieldSchema(c).kind
  {
  }

  /**
   * A pattern on a number field attaches nothing: `.regex` is a string rule, and the source
   * catches the TypeError the number validator throws.
   */
  lemma PatternIgnoredOnNumbers(schema: map<string, Schema>, c: Component, env: Env, p: string)
    requires c.Node? && c.ctype == "number" && !Excluded(c, env.included) && HasKey(c) && !c.multiple
    requires AddValidator(schema, c, env).Ok?
    ensures Regex(p) !in AddValidator(schema, c, env).value[c.key.value].checks
  {
    TypeClassesDisjoint(c.ctype);
    var f := FieldSchema(c);
    assert Base(schema, c, env) == Ok(Built(schema, Some(f)));
    RulesAttachOnlyWhenApplicable(f, c, env.data, env.regexCompiles, p);
  }

  /** On an applicable component the rules apply one after the other, none of them failing on a validator. */
  lemma AttachRulesSteps(f: Schema, c: Component, data: map<string, Value>, regexCompiles: string -> bool)
    requires c.Node? && RulesApply(c)
    ensures var v := c.validate.value;
      var f1 := if v.required then f.(required := true, empty := NoEmpty) else f;
      var f2 := if v.pattern != "" && regexCompiles(v.pattern) && f.kind.StringType? then Attach(f1, Regex(v.pattern)) else f1;
      var f3 := if v.custom != "" then Attach(f2, CustomRule(c, data)) else f2;
      var f4 := if Truthy(v.json) then Attach(f3, JsonRule(c, data)) else f3;
      AttachRules(Some(f), c, data, regexCompiles) == Ok(Some(f4))
  {
  }

  /** Attaching a check keeps the kind and the required flag and adds exactly that check. */
  lemma AttachMembers(s: Schema, ch: Check)
    ensures Attach(s, ch).kind == s.kind && Attach(s, ch).required == s.required
    ensures forall y :: y in Attach(s, ch).checks <==> y in s.checks || y == ch
  {
  }

  /** The four rule steps on a validator, as `AttachRulesSteps` spells them out. */
  function RuleChain(f: Schema, c: Component, data: map<string, Value>, regexCompiles: string -> bool): Schema
    requires c.Node? && c.validate.Some?
  {
    var v := c.validate.value;
    var f1 := if v.required then f.(required := true, empty := NoEmpty) else f;
    var f2 := if v.pattern != "" && regexCompiles(v.pattern) && f.kind.StringType? then Attach(f1, Regex(v.pattern)) else f1;
    var f3 := if v.custom != "" then Attach(f2, CustomRule(c, data)) else f2;
    if Truthy(v.json) then Attach(f3, JsonRule(c, data)) else f3
  }

  /** The validator after the required and pattern steps, and after the custom step too. */
  function AfterPattern(f: Schema, c: Component, regexCompiles: string -> bool): Schema
    requires c.Node? && c.validate.Some?
  {
    var v := c.validate.value;
    var f1 := if v.required then f.(required := true, empty := NoEmpty) else f;
    if v.pattern != "" && regexCompiles(v.pattern) && f.kind.StringType? then Attach(f1, Regex(v.pattern)) else f1
  }

  function AfterCustom(f: Schema, c: Component, data: map<string, Value>, regexCompiles: string -> bool): Schema
    requires c.Node? && c.validate.Some?
  {
    var f2 := AfterPattern(f, c, regexCompiles);
    if c.validate.value.custom != "" then Attach(f2, CustomRule(c, data)) else f2
  }

  lemma ChainSteps(f: Schema, c: Component, data: map<string, Value>, regexCompiles: string -> bool)
    requires c.Node? && c.validate.Some?
    ensures var v := c.validate.value; var f2 := AfterPattern(f, c, regexCompiles); var f3 := AfterCustom(f, c, data, regexCompiles);
      RuleChain(f, c, data, regexCompiles) == (if Truthy(v.json) then Attach(f3, JsonRule(c, data)) else f3)
      && f3 == (if v.custom != "" then Attach(f2, CustomRule(c, data)) else f2)
  {
  }

  lemma {:induction false} RuleChainRegex(f: Schema, c: Component, data: map<string, Value>, regexCompiles: string -> bool, p: string)
    requires c.Node? && c.validate.Some?
    ensures var v := c.validate.value;
      Regex(p) in RuleChain(f, c, data, regexCompiles).checks <==> Regex(p) in f.checks || (p == v.pattern && p != "" && regexCompiles(p) && f.kind.StringType?)
  {
    var v := c.validate.value;
    var f2 := AfterPattern(f, c, regexCompiles);
    var f3 := AfterCustom(f, c, data, regexCompiles);
    ChainSteps(f, c, data, regexCompiles);
    AttachMembers(f2, CustomRule(c, data));
    AttachMembers(f3, JsonRule(c, data));
    assert Regex(p) in f2.checks <==> Regex(p) in f.checks || (p == v.pattern && p != "" && regexCompiles(p) && f.kind.StringType?);
  }

  lemma {:induction false} RuleChainCustom(f: Schema, c: Component, data: map<string, Value>, regexCompiles: string -> bool)
    requires c.Node? && c.validate.Some?
    ensures CustomRule(c, data) in RuleChain(f, c, data, regexCompiles).checks <==>
      CustomRule(c, data) in f.checks || c.validate.value.custom != ""
  {
    var f2 := AfterPattern(f, c, regexCompiles);
    var f3 := AfterCustom(f, c, data, regexCompiles);
    ChainSteps(f, c, data, regexCompiles);
    AttachMembers(f3, JsonRule(c, data));
    assert CustomRule(c, data) in f2.checks <==> CustomRule(c, data) in f.checks;
  }

  lemma {:induction false} RuleChainJson(f: Schema, c: Component, data: map<string, Value>, regexCompiles: string -> bool)
    requires c.Node? && c.validate.Some?
    ensures JsonRule(c, data) in RuleChain(f, c, data, regexCompiles).checks <==>
      JsonRule(c, data) in f.checks || Truthy(c.validate.value.json)
  {
    var f2 := AfterPattern(f, c, regexCompiles);
    var f3 := AfterCustom(f, c, data, regexCompiles);
    ChainSteps(f, c, data, regexCompiles);
    assert JsonRule(c, data) in f2.checks <==> JsonRule(c, data) in f.checks;
    assert JsonRule(c, data) in f3.checks <==> JsonRule(c, data) in f.checks;
  }

  /** The rule steps keep the kind, make the validator required exactly as configured and add exactly the configured rules. */
  lemma RuleChainMembers(f: Schema, c: Component, data: map<string, Value>, regexCompiles: string -> bool, p: string)
    requires c.Node? && c.validate.Some?
    ensures var v := c.validate.value; var g := RuleChain(f, c, data, regexCompiles);
      g.kind == f.kind
      && g.required == (f.required || v.required)
      && (Regex(p) in g.checks <==> Regex(p) in f.checks || (p == v.pattern && p != "" && regexCompiles(p) && f.kind.StringType?))
      && (CustomRule(c, data) in g.checks <==> CustomRule(c, data) in f.checks || v.custom != "")
      && (JsonRule(c, data) in g.checks <==> JsonRule(c, data) in f.checks || Truthy(v.json))
  {
    RuleChainRegex(f, c, data, regexCompiles, p);
    RuleChainCustom(f, c, data, regexCompiles);
    RuleChainJson(f, c, data, regexCompiles);
  }

  /** The rule steps append the configured checks, in the order pattern, custom, json, and nothing else. */
  lemma RuleChainChecks(f: Schema, c: Component, data: map<string, Value>, regexCompiles: string -> bool)
    requires c.Node? && c.validate.Some?
    ensures var v := c.validate.value; var g := RuleChain(f, c, data, regexCompiles);
      g.empty == (if v.required then NoEmpty else f.empty)
      && g.checks == f.checks
        + (if v.pattern != "" && regexCompiles(v.pattern) && f.kind.StringType? then [Regex(v.pattern)] else [])
        + (if v.custom != "" then [CustomRule(c, data)] else [])
        + (if Truthy(v.json) then [JsonRule(c, data)] else [])
  {
    var v := c.validate.value;
    var pat := if v.pattern != "" && regexCompiles(v.pattern) && f.kind.StringType? then [Regex(v.pattern)] else [];
    var cus := if v.custom != "" then [CustomRule(c, data)] else [];
    var js := if Truthy(v.json) then [JsonRule(c, data)] else [];
    var f2 := AfterPattern(f, c, regexCompiles);
    var f3 := AfterCustom(f, c, data, regexCompiles);
    ChainSteps(f, c, data, regexCompiles);
    assert f2.checks == f.checks + pat && f2.empty == (if v.required then NoEmpty else f.empty);
    assert f3.checks == f2.checks + cus && f3.empty == f2.empty;
    assert RuleChain(f, c, data, regexCompiles).checks == f3.checks + js;
  }

  /**
   * The required, pattern, custom and json rules attach only to a keyed, dot-free, persistent
   * component with a `validate` object, and then exactly as configured.
   */
  lemma RulesAttachOnlyWhenApplicable(f: Schema, c: Component, data: map<string, Value>, regexCompiles: string -> bool, p: string)
    requires c.Node?
    ensures !RulesApply(c) ==> AttachRules(Some(f), c, data, regexCompiles) == Ok(Some(f))
    ensures RulesApply(c) ==>
      var v := c.validate.value;
      var r := AttachRules(Some(f), c, data, regexCompiles);
      r.Ok? && r.value.Some?
      && r.value.value.kind == f.kind
      && r.value.value.required == (f.required || v.required)
      && (Regex(p) in r.value.value.checks <==> Regex(p) in f.checks || (p == v.pattern && p != "" && regexCompiles(p) && f.kind.StringType?))
      && (CustomRule(c, data) in r.value.value.checks <==> CustomRule(c, data) in f.checks || v.custom != "")
      && (JsonRule(c, data) in r.value.value.checks <==> JsonRule(c, data) in f.checks || Truthy(v.json))
      && r.value.value.empty == (if v.required then NoEmpty else f.empty)
      && r.value.value.checks == f.checks
        + (if v.pattern != "" && regexCompiles(v.pattern) && f.kind.StringType? then [Regex(v.pattern)] else [])
        + (if v.custom != "" then [CustomRule(c, data)] else [])
        + (if Truthy(v.json) then [JsonRule(c, data)] else [])
  {
    if RulesApply(c) {
      AttachRulesSteps(f, c, data, regexCompiles);
      assert AttachRules(Some(f), c, data, regexCompiles) == Ok(Some(RuleChain(f, c, data, regexCompiles)));
      RuleChainMembers(f, c, data, regexCompiles, p);
      RuleChainChecks(f, c, data, regexCompiles);
    }
  }
}

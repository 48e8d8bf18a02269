/**
 * The form definition the validator walks: a tree of typed components. Layout types
 * keep their children in `components`, `columns` (columns) or `rows` (table); every
 * flag holds the truthiness of the property as the validator reads it.
 */
module Components {
  import opened JsValues

  /** A component's `validate` object. `Undefined` stands for a property it does not have. */
  datatype Validate = Validate(
    required: bool,
    minLength: Value,
    maxLength: Value,
    min: Value,
    max: Value,
    greater: Value,
    less: Value,
    step: Option<string>,
    pattern: string,
    custom: string,
    json: Value)

  /**
   * A component; `Missing` is a null entry of a `components` array.
   * `key` is `None` when the component has no own `key` property; `persistent` is `None`
   * when it has no own `persistent` property; `clearOnHide` is `Some(b)` exactly when the
   * property reads as a boolean (`util.isBoolean`), `b` being its value (`util.boolean`).
   */
  datatype Component =
    | Missing
    | Node(
        key: Option<string>,
        ctype: string,
        fieldLabel: Option<string>,
        components: seq<Component>,
        columns: seq<Column>,
        rows: seq<Row>,
        tree: bool,
        unique: bool,
        multiple: bool,
        persistent: Option<bool>,
        clearOnHide: Option<bool>,
        validate: Option<Validate>,
        customConditional: string)

  /** A column of a columns or table layout. */
  datatype Column = Column(components: seq<Component>)

  /** A row of a table layout: its cells. */
  datatype Row = Row(cells: seq<Column>)

  /** The property name `component.key` stands for when it is used to index an object: `undefined` becomes "undefined". */
  function KeyName(c: Component): string
  {
    if c.Node? && c.key.Some? then c.key.value else "undefined"
  }

  /** `component.key` is truthy. */
  predicate HasKey(c: Component)
  {
    c.Node? && c.key.Some? && c.key.value != ""
  }

  /** `!component.hasOwnProperty('persistent') || component.persistent`. */
  predicate IsPersistent(c: Component)
    requires c.Node?
  {
    c.persistent.None? || c.persistent.value
  }

  /** The component's label as string concatenation renders it. */
  function LabelText(c: Component): string
  {
    if c.Node? && c.fieldLabel.Some? then c.fieldLabel.value else "undefined"
  }

  /**
   * Whether the required, pattern, custom and json rules may attach: a truthy key without a
   * '.', a persistent component and a `validate` object.
   */
  predicate RulesApply(c: Component)
  {
    HasKey(c) && '.' !in c.key.value && IsPersistent(c) && c.validate.Some?
  }

  /** The text input types. */
  predicate IsTextType(t: string)
  {
    t == "textfield" || t == "textarea" || t == "phonenumber"
  }

  /** The layout types whose children are compiled straight into the enclosing schema. */
  predicate IsLayoutType(t: string)
  {
    t == "fieldset" || t == "panel" || t == "well" || t == "table" || t == "columns"
  }

  /** The repeating types: an array of objects built from the children. */
  predicate IsGridType(t: string)
  {
    t == "editgrid" || t == "datagrid"
  }

  /** The leaf types with a validator of their own and no recursion into children. */
  predicate IsFieldType(t: string)
  {
    IsTextType(t) || t == "email" || t == "number" || t == "signature"
  }

  /** The type classes do not overlap. */
  lemma TypeClassesDisjoint(t: string)
    ensures IsLayoutType(t) ==> !IsGridType(t) && t != "container" && !IsFieldType(t)
    ensures IsGridType(t) ==> t != "container" && !IsFieldType(t)
    ensures t == "container" ==> !IsFieldType(t)
    ensures t == "table" || t == "columns" ==> !IsFieldType(t)
  {
  }
}

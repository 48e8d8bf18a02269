/**
 * The form validator: an object that holds the form's components, the include map of the
 * last sanitize pass, the registry of unique components and the compiled schema, and whose
 * `validate` sanitizes a submission, compiles the schema, checks the unique fields against
 * the store and hands the data to the schema check.
 */
module FormValidator {
  import opened JsValues
  import opened Components
  import opened JoiModel
  import opened Visibility
  import opened Uniqueness

  /** A submission: its data (`None` when the data is missing or falsy), its `_id` and its form's id. */
  class Submission {
    var data: Option<map<string, Value>>
    const id: Option<string>
    const form: string

    constructor (data: Option<map<string, Value>>, id: Option<string>, form: string)
      ensures this.data == data && this.id == id && this.form == form
    {
      this.data := data;
      this.id := id;
      this.form := form;
    }
  }

  /** What `validate` reports to its callback. */
  datatype Outcome =
    | NoData
    | BuildFailed(error: BuildError)
    | UniqueFailed(message: string)
    | Invalid(report: Value)
    | Accepted(value: map<string, Value>)

  /**
   * `JoiX.object().keys(keys)` after every top-level component was added to `{_id: ...}`:
   * a compiled form schema always describes `_id`, whatever the components add.
   */
  function BuiltSchema(components: seq<Component>, env: Env): (r: Result<Schema, BuildError>)
    ensures r.Ok? ==> r.value.kind.ObjectType? && "_id" in r.value.kind.keys && !r.value.required
    ensures r.Err? <==> JoiModel.AddAll(map["_id" := IdSchema()], components, env).Err?
  {
    var keys :- JoiModel.AddAll(map["_id" := IdSchema()], components, env);
    Ok(ObjectOf(keys))
  }

  /** The path map of `validate`: each component with an own key maps it to its path, later components winning. */
  function PathsOf(walk: seq<Visit>): (paths: map<string, string>)
    ensures |paths| <= |walk|
    decreases |walk|
  {
    if walk == [] then map[]
    else
      var v := walk[|walk| - 1];
      var paths := PathsOf(walk[..|walk| - 1]);
      if v.component.Node? && v.component.key.Some? then paths[v.component.key.value := v.path] else paths
  }

  /** A key's path is the path of the last component in the walk with that own key; other keys have none. */
  lemma {:induction false} PathOfLastVisit(walk: seq<Visit>, key: string)
    ensures key in PathsOf(walk) <==>
      exists i :: 0 <= i < |walk| && walk[i].component.Node? && walk[i].component.key == Some(key)
    ensures forall i :: (0 <= i < |walk| && walk[i].component.Node? && walk[i].component.key == Some(key) &&
                         (forall j :: i < j < |walk| ==> !(walk[j].component.Node? && walk[j].component.key == Some(key))))
                        ==> key in PathsOf(walk) && PathsOf(walk)[key] == walk[i].path
    decreases |walk|
  {
    if walk != [] {
      var n := |walk| - 1;
      var front := walk[..n];
      PathOfLastVisit(front, key);
      assert forall i :: 0 <= i < n ==> front[i] == walk[i];
    }
  }

  class Validator {
    /** The form's top-level components. */
    const components: seq<Component>
    /** `this.model.findOne`: the submission store's answer to a query. */
    const find: Query -> LookupResult
    /** `this.include`: whether the sanitize pass kept the component with a key. */
    var included: map<string, bool>
    /** `this.unique`: the components to check for unique values, by key. */
    var unique: Registry
    /** `this.schema`: the compiled schema, `None` until one was built. */
    var schema: Option<Schema>

    ghost predicate Valid()
      reads this
    {
      RegistryValid(unique)
    }

    constructor (components: seq<Component>, find: Query -> LookupResult)
      ensures Valid()
      ensures this.components == components && this.find == find
      ensures included == map[] && unique == EmptyRegistry() && schema == None
    {
      this.components := components;
      this.find := find;
      included := map[];
      unique := EmptyRegistry();
      schema := None;
    }

    // -------------------------------------------------------------------------
    // addValidator
    // -------------------------------------------------------------------------

    /**
     * `addValidator(schema, c)`: the schema with the component's entries, registering every
     * included unique component on the way; `regexCompiles` says which patterns `new RegExp` accepts.
     */
    method AddValidator(schema: map<string, Schema>, c: Component, data: map<string, Value>, regexCompiles: string -> bool)
      returns (r: Result<map<string, Schema>, BuildError>)
      requires Valid()
      modifies this`unique
      ensures Valid()
      ensures r == JoiModel.AddValidator(schema, c, Env(included, data, regexCompiles))
      ensures r.Ok? ==> unique == RegisterAll(old(unique), Uniques(c, included))
      decreases c, 2
    {
      if Excluded(c, included) {
        return Ok(schema);
      }
      ghost var start := unique;
      if c.unique {
        unique := Register(unique, c);
      }
      ghost var own: seq<Component> := if c.unique then [c] else [];
      assert unique == RegisterAll(start, own);
      var b :- Base(schema, c, data, regexCompiles);
      var ruled :- AttachRules(b.field, c, data, regexCompiles);
      var field :- WrapMultiple(ruled, c);
      RegisterAllAppend(start, own, ChildUniques(c, included));
      r := Ok(if HasKey(c) && field.Some? then b.schema[c.key.value := field.value] else b.schema);
    }

    /** The type switch: the enclosing schema as the children leave it, and the component's own validator. */
    method Base(schema: map<string, Schema>, c: Component, data: map<string, Value>, regexCompiles: string -> bool)
      returns (r: Result<Built, BuildError>)
      requires Valid() && c.Node?
      modifies this`unique
      ensures Valid()
      ensures r == JoiModel.Base(schema, c, Env(included, data, regexCompiles))
      ensures r.Ok? ==> unique == RegisterAll(old(unique), ChildUniques(c, included))
      decreases c, 1
    {
      TypeClassesDisjoint(c.ctype);
      if IsGridType(c.ctype) || c.ctype == "container" {
        var keys :- AddAll(map[], c.components, data, regexCompiles);
        assert ChildUniques(c, included) == UniquesAll(c.components, included);
        r := Ok(Built(schema, Some(if IsGridType(c.ctype) then GridOf(keys) else ObjectOf(keys))));
      } else if IsLayoutType(c.ctype) {
        var s :- LayoutChildren(schema, c, data, regexCompiles);
        r := Ok(Built(s, None));
      } else if IsFieldType(c.ctype) {
        r := Ok(Built(schema, Some(FieldSchema(c))));
      } else if c.tree {
        var keys :- AddAll(map[], c.components, data, regexCompiles);
        assert ChildUniques(c, included) == UniquesAll(c.components, included);
        r := Ok(Built(schema, Some(ObjectOf(keys))));
      } else {
        var s :- AddAll(schema, c.components, data, regexCompiles);
        assert ChildUniques(c, included) == UniquesAll(c.components, included);
        r := Ok(Built(s, Some(Plain(AnyType, NoEmpty))));
      }
    }

    /** fieldset, panel, well, table and columns: the children go straight into the enclosing schema. */
    method LayoutChildren(schema: map<string, Schema>, c: Component, data: map<string, Value>, regexCompiles: string -> bool)
      returns (r: Result<map<string, Schema>, BuildError>)
      requires Valid() && c.Node? && IsLayoutType(c.ctype)
      modifies this`unique
      ensures Valid()
      ensures r == JoiModel.LayoutChildren(schema, c, Env(included, data, regexCompiles))
      ensures r.Ok? ==> unique == RegisterAll(old(unique), ChildUniques(c, included))
      decreases c, 0
    {
      TypeClassesDisjoint(c.ctype);
      if c.ctype == "table" {
        r := AddRows(schema, c.rows, data, regexCompiles);
      } else if c.ctype == "columns" {
        r := AddColumns(schema, c.columns, data, regexCompiles);
      } else {
        r := AddAll(schema, c.components, data, regexCompiles);
      }
    }

    /** `components.forEach(c => this.addValidator(schema, c))`; an exception ends the loop. */
    method AddAll(schema: map<string, Schema>, cs: seq<Component>, data: map<string, Value>, regexCompiles: string -> bool)
      returns (r: Result<map<string, Schema>, BuildError>)
      requires Valid()
      modifies this`unique
      ensures Valid()
      ensures r == JoiModel.AddAll(schema, cs, Env(included, data, regexCompiles))
      ensures r.Ok? ==> unique == RegisterAll(old(unique), UniquesAll(cs, included))
      decreases cs
    {
      ghost var env := Env(included, data, regexCompiles);
      var acc := schema;
      var i := 0;
      while i < |cs|
        invariant 0 <= i <= |cs|
        invariant Valid()
        invariant JoiModel.AddAll(schema, cs[..i], env) == Ok(acc)
        invariant unique == RegisterAll(old(unique), UniquesAll(cs[..i], included))
      {
        assert cs[..i + 1][..i] == cs[..i] && cs[..i + 1][i] == cs[i];
        ghost var before := unique;
        var next := AddValidator(acc, cs[i], data, regexCompiles);
        if next.Err? {
          AddAllStops(schema, cs, i + 1, env);
          return next;
        }
        RegisterAllAppend(old(unique), UniquesAll(cs[..i], included), Uniques(cs[i], included));
        acc := next.value;
        i := i + 1;
      }
      assert cs[..i] == cs;
      r := Ok(acc);
    }

    /** `columns.forEach(column => column.components.forEach(...))`. */
    method AddColumns(schema: map<string, Schema>, cols: seq<Column>, data: map<string, Value>, regexCompiles: string -> bool)
      returns (r: Result<map<string, Schema>, BuildError>)
      requires Valid()
      modifies this`unique
      ensures Valid()
      ensures r == JoiModel.AddColumns(schema, cols, Env(included, data, regexCompiles))
      ensures r.Ok? ==> unique == RegisterAll(old(unique), UniquesColumns(cols, included))
      decreases cols
    {
      ghost var env := Env(included, data, regexCompiles);
      var acc := schema;
      var i := 0;
      while i < |cols|
        invariant 0 <= i <= |cols|
        invariant Valid()
        invariant JoiModel.AddColumns(schema, cols[..i], env) == Ok(acc)
        invariant unique == RegisterAll(old(unique), UniquesColumns(cols[..i], included))
      {
        assert cols[..i + 1][..i] == cols[..i] && cols[..i + 1][i] == cols[i];
        var next := AddAll(acc, cols[i].components, data, regexCompiles);
        if next.Err? {
          AddColumnsStops(schema, cols, i + 1, env);
          return next;
        }
        RegisterAllAppend(old(unique), UniquesColumns(cols[..i], included), UniquesAll(cols[i].components, included));
        acc := next.value;
        i := i + 1;
      }
      assert cols[..i] == cols;
      r := Ok(acc);
    }

    /** `rows.forEach(row => row.forEach(column => ...))` of a table. */
    method AddRows(schema: map<string, Schema>, rows: seq<Row>, data: map<string, Value>, regexCompiles: string -> bool)
      returns (r: Result<map<string, Schema>, BuildError>)
      requires Valid()
      modifies this`unique
      ensures Valid()
      ensures r == JoiModel.AddRows(schema, rows, Env(included, data, regexCompiles))
      ensures r.Ok? ==> unique == RegisterAll(old(unique), UniquesRows(rows, included))
      decreases rows
    {
      ghost var env := Env(included, data, regexCompiles);
      var acc := schema;
      var i := 0;
      while i < |rows|
        invariant 0 <= i <= |rows|
        invariant Valid()
        invariant JoiModel.AddRows(schema, rows[..i], env) == Ok(acc)
        invariant unique == RegisterAll(old(unique), UniquesRows(rows[..i], included))
      {
        assert rows[..i + 1][..i] == rows[..i] && rows[..i + 1][i] == rows[i];
        var next := AddColumns(acc, rows[i].cells, data, regexCompiles);
        if next.Err? {
          AddRowsStops(schema, rows, i + 1, env);
          return next;
        }
        RegisterAllAppend(old(unique), UniquesRows(rows[..i], included), UniquesColumns(rows[i].cells, included));
        acc := next.value;
        i := i + 1;
      }
      assert rows[..i] == rows;
      r := Ok(acc);
    }

    // -------------------------------------------------------------------------
    // sanitize, buildSchema, validate
    // -------------------------------------------------------------------------

    /**
     * `sanitize(submission)`: record for every component of the walk whether it is kept, and
     * remove the data paths of the components that are not. Missing data sanitizes to `{}`.
     */
    method Sanitize(sub: Submission, walk: seq<Visit>, conds: Conditions)
      modifies this`included, sub`data
      ensures included == IncludeAll(old(included), walk, conds)
      ensures sub.data == Some(Omit(if old(sub.data).Some? then old(sub.data).value else map[], OmittedPaths(walk, conds)))
    {
      var d := if sub.data.Some? then sub.data.value else map[];
      var omit: seq<string> := [];
      var i := 0;
      while i < |walk|
        invariant 0 <= i <= |walk|
        invariant included == IncludeAll(old(included), walk[..i], conds)
        invariant omit == OmittedPaths(walk[..i], conds)
      {
        var v := walk[i];
        assert walk[..i + 1][..i] == walk[..i] && walk[..i + 1][i] == v;
        var clearOnHide := ClearOnHide(v.component);
        included := included[KeyName(v.component) := !clearOnHide || IsVisible(v.component, v.ancestors, conds)];
        if !included[KeyName(v.component)] {
          omit := omit + [v.path];
        }
        i := i + 1;
      }
      assert walk[..i] == walk;
      sub.data := Some(Omit(d, omit));
    }

    /** `buildSchema(submission)`: compile every top-level component into `{_id: ...}` and store the object schema. */
    method BuildSchema(sub: Submission, regexCompiles: string -> bool) returns (r: Result<Schema, BuildError>)
      requires Valid() && sub.data.Some?
      modifies this`unique, this`schema
      ensures Valid()
      ensures r == BuiltSchema(components, Env(included, sub.data.value, regexCompiles))
      ensures r.Ok? ==> schema == Some(r.value) && unique == RegisterAll(old(unique), UniquesAll(components, included))
      ensures r.Err? ==> schema == old(schema)
    {
      var keys :- AddAll(map["_id" := IdSchema()], components, sub.data.value, regexCompiles);
      schema := Some(ObjectOf(keys));
      r := Ok(ObjectOf(keys));
    }

    /** The path map `validate` builds: a loop over the walk of every component, layout ones included. */
    static method PathMap(walk: seq<Visit>) returns (paths: map<string, string>)
      ensures paths == PathsOf(walk)
    {
      paths := map[];
      var i := 0;
      while i < |walk|
        invariant 0 <= i <= |walk|
        invariant paths == PathsOf(walk[..i])
      {
        var c := walk[i].component;
        assert walk[..i + 1][..i] == walk[..i] && walk[..i + 1][i] == walk[i];
        if c.Node? && c.key.Some? {
          paths := paths[c.key.value := walk[i].path];
        }
        i := i + 1;
      }
      assert walk[..i] == walk;
    }

    /**
     * `validate(submission, next)`. `walk` is the sanitize walk (layout components left out),
     * `pathWalk` the walk of every component, `escape` the regular-expression escaping and
     * `joi(data, schema)` Joi's check with unknown keys stripped: the cleaned value or the error report.
     */
    method Validate(sub: Submission, walk: seq<Visit>, conds: Conditions, regexCompiles: string -> bool,
                    pathWalk: seq<Visit>, escape: Value -> string,
                    joi: (map<string, Value>, Schema) -> Result<map<string, Value>, Value>)
      returns (outcome: Outcome)
      requires Valid()
      modifies this`included, this`unique, this`schema, sub`data
      ensures Valid()
      ensures old(sub.data).None? ==>
        outcome == NoData && included == old(included) && unique == old(unique) && schema == old(schema) && sub.data == old(sub.data)
      ensures old(sub.data).Some? ==>
        var sanitized := Omit(old(sub.data).value, OmittedPaths(walk, conds));
        var env := Env(IncludeAll(old(included), walk, conds), sanitized, regexCompiles);
        var built := BuiltSchema(components, env);
        included == env.included &&
        (built.Err? ==> outcome == BuildFailed(built.error) && sub.data == Some(sanitized) && schema == old(schema)) &&
        (built.Ok? ==>
          schema == Some(built.value) && unique == RegisterAll(old(unique), UniquesAll(components, env.included)) &&
          var run := RunKeys(unique, unique.order, Lookup(sanitized, PathsOf(pathWalk), sub.form, sub.id, escape, find));
          (run.outcome.Conflict? ==> outcome == UniqueFailed(run.outcome.message) && sub.data == Some(sanitized)) &&
          (run.outcome.StoreFailed? ==> outcome == UniqueFailed(run.outcome.message) && sub.data == Some(sanitized)) &&
          (run.outcome == AllUnique ==>
            match joi(sanitized, built.value)
            case Err(report) => outcome == Invalid(report) && sub.data == Some(sanitized)
            case Ok(value) => outcome == Accepted(value) && sub.data == Some(value)))
    {
      if sub.data.None? {
        return NoData;
      }
      Sanitize(sub, walk, conds);
      var built := BuildSchema(sub, regexCompiles);
      if built.Err? {
        return BuildFailed(built.error);
      }
      var paths := PathMap(pathWalk);
      var result, _ := CheckUniques(unique, Lookup(sub.data.value, paths, sub.form, sub.id, escape, find));
      if result != AllUnique {
        return UniqueFailed(result.message);
      }
      var checked := joi(sub.data.value, built.value);
      match checked {
        case Err(report) =>
          outcome := Invalid(report);
        case Ok(value) =>
          sub.data := Some(value);
          outcome := Accepted(value);
      }
    }
  }
}

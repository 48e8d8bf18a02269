/**
 * The `custom` and `json` rules the validator adds to every Joi type. Each one runs once per
 * row of the value's parent (once per entry when the parent is an array, e.g. the rows of a
 * data grid, once with the parent itself otherwise) and stops at the first row whose verdict
 * is not exactly `true`, failing with the code `<type>.custom` or `<type>.json` and that verdict.
 */
module CustomRules {
  import opened JsValues
  import opened Components
  import opened JoiModel

  /**
   * The globals a custom script runs with. `valid` is the verdict so far and the script sets
   * it; `scope` is `{data}` and is not repeated here.
   */
  datatype Sandbox = Sandbox(input: Value, data: map<string, Value>, row: Value, component: Component, valid: Value)

  /**
   * What the rules need from outside the model:
   *   `subst(script, data)` is one pass of the `{{ path }}` substitution over the script;
   *   `getValue(row, key)` is `util.getValue({data: row}, key)`;
   *   `run(script, sandbox)` is the script's final `valid`, or what compiling or running it
   *     threw (an exceeded time budget included);
   *   `applyLogic(json, data, row)` is `util.jsonLogic.apply(json, {data, row})` or what it threw.
   */
  datatype Host = Host(
    subst: (string, map<string, Value>) -> string,
    getValue: (Value, Option<string>) -> Value,
    run: (string, Sandbox) -> Result<Value, Thrown>,
    applyLogic: (Value, map<string, Value>, Value) -> Result<Value, Thrown>)

  /** A rule's outcome: the value passes through unchanged, or an error with its code and `valid` context. */
  datatype RuleResult = RulePassed(value: Value) | RuleFailed(code: string, valid: Value)

  /** The name of the extended Joi type a rule is attached to, the prefix of its error code. */
  function TypeName(k: Kind): string
  {
    match k
    case StringType => "string"
    case NumberType => "number"
    case AnyType => "any"
    case ObjectType(_) => "object"
    case ArrayType(_, _) => "array"
  }

  /** The rows a rule runs over: the parent's entries when it is an array, else the parent alone. */
  function Rows(parent: Value): (rows: seq<Value>)
    ensures !parent.Arr? ==> rows == [parent]
    ensures parent.Arr? ==> rows == parent.items
  {
    if parent.Arr? then parent.items else [parent]
  }

  /** `typeof row === 'object'`: null, arrays and objects. */
  predicate IsObjectTyped(v: Value)
  {
    v.Null? || v.Arr? || v.Obj?
  }

  /** The script's `input`: the component's value inside an object-typed row, the row itself otherwise. */
  function InputOf(row: Value, key: Option<string>, host: Host): (input: Value)
    ensures !IsObjectTyped(row) ==> input == row
    ensures IsObjectTyped(row) ==> input == host.getValue(row, key)
  {
    if IsObjectTyped(row) then host.getValue(row, key) else row
  }

  /** The position of the first verdict that is not exactly `true`. */
  function FirstRejected(verdicts: seq<Value>): (r: Option<nat>)
    ensures r.Some? ==> r.value < |verdicts| && verdicts[r.value] != Bool(true)
    ensures r.Some? ==> forall j :: 0 <= j < r.value ==> verdicts[j] == Bool(true)
    ensures r.None? <==> forall j :: 0 <= j < |verdicts| ==> verdicts[j] == Bool(true)
  {
    if verdicts == [] then None
    else if verdicts[0] != Bool(true) then Some(0)
    else
      match FirstRejected(verdicts[1..])
      case None => None
      case Some(i) => Some(i + 1)
  }

  /** The number of rows a rule evaluates: up to and including the first rejection. */
  function Evaluated(verdicts: seq<Value>): (n: nat)
    ensures n <= |verdicts|
    ensures forall j :: 0 <= j < n - 1 ==> verdicts[j] == Bool(true)
    ensures n < |verdicts| ==> n >= 1 && verdicts[n - 1] != Bool(true)
  {
    match FirstRejected(verdicts)
    case None => |verdicts|
    case Some(i) => i + 1
  }

  /**
   * The rule's outcome over per-row verdicts: it passes, returning the value, exactly when
   * every verdict is `true`; otherwise it fails with the first verdict that is not.
   */
  function Outcome(code: string, value: Value, verdicts: seq<Value>): (r: RuleResult)
    ensures r.RulePassed? <==> forall j :: 0 <= j < |verdicts| ==> verdicts[j] == Bool(true)
    ensures r.RulePassed? ==> r.value == value
    ensures r.RuleFailed? ==> r.code == code && r.valid != Bool(true)
    ensures r.RuleFailed? ==> exists i :: 0 <= i < |verdicts| && r.valid == verdicts[i] &&
                                         forall j :: 0 <= j < i ==> verdicts[j] == Bool(true)
  {
    match FirstRejected(verdicts)
    case None => RulePassed(value)
    case Some(i) => RuleFailed(code, verdicts[i])
  }

  // ---------------------------------------------------------------------------
  // The custom rule
  // ---------------------------------------------------------------------------

  /** The component with its `validate.custom` script replaced. */
  function WithCustom(c: Component, script: string): Component
    requires c.Node? && c.validate.Some?
  {
    c.(validate := Some(c.validate.value.(custom := script)))
  }

  /** The script after `k` substitution passes; the substitution rewrites the component's own script. */
  function Substituted(script: string, data: map<string, Value>, host: Host, k: nat): string
  {
    if k == 0 then script else host.subst(Substituted(script, data, host, k - 1), data)
  }

  /**
   * The verdict of row `b`, reached after every earlier row passed: the script substituted once
   * more, run with `valid` still `true`; a throw becomes the text of the error.
   */
  function CustomVerdict(c: Component, data: map<string, Value>, rows: seq<Value>, host: Host, b: nat): (valid: Value)
    requires c.Node? && c.validate.Some? && b < |rows|
    ensures var script := Substituted(c.validate.value.custom, data, host, b + 1);
      var ran := host.run(script, Sandbox(InputOf(rows[b], c.key, host), data, rows[b], WithCustom(c, script), Bool(true)));
      (ran.Err? ==> valid == Str(ErrorText(ran.error)) && valid != Bool(true))
      && (ran.Ok? ==> valid == ran.value)
  {
    var script := Substituted(c.validate.value.custom, data, host, b + 1);
    var sandbox := Sandbox(InputOf(rows[b], c.key, host), data, rows[b], WithCustom(c, script), Bool(true));
    match host.run(script, sandbox)
    case Ok(v) => v
    case Err(e) => Str(ErrorText(e))
  }

  function CustomVerdicts(c: Component, data: map<string, Value>, rows: seq<Value>, host: Host): (vs: seq<Value>)
    requires c.Node? && c.validate.Some?
    ensures |vs| == |rows|
    ensures forall b :: 0 <= b < |rows| ==> vs[b] == CustomVerdict(c, data, rows, host, b)
  {
    seq(|rows|, b requires 0 <= b < |rows| => CustomVerdict(c, data, rows, host, b))
  }

  /**
   * The custom rule on the value `value` whose parent is `parent`. It also returns the component
   * as the rule leaves it: its script substituted once per evaluated row.
   */
  method CustomRule(kind: Kind, c: Component, data: map<string, Value>, parent: Value, value: Value, host: Host)
    returns (r: RuleResult, updated: Component)
    requires c.Node? && c.validate.Some?
    ensures r == Outcome(TypeName(kind) + ".custom", value, CustomVerdicts(c, data, Rows(parent), host))
    ensures updated == WithCustom(c, Substituted(c.validate.value.custom, data, host,
      Evaluated(CustomVerdicts(c, data, Rows(parent), host))))
  {
    var rows := Rows(parent);
    ghost var verdicts := CustomVerdicts(c, data, rows, host);
    var code := TypeName(kind) + ".custom";
    var script := c.validate.value.custom;
    var valid := Bool(true);
    var b := 0;
    while b < |rows|
      invariant 0 <= b <= |rows|
      invariant script == Substituted(c.validate.value.custom, data, host, b)
      invariant valid == Bool(true)
      invariant forall j :: 0 <= j < b ==> verdicts[j] == Bool(true)
    {
      script := host.subst(script, data);
      var sandbox := Sandbox(InputOf(rows[b], c.key, host), data, rows[b], WithCustom(c, script), Bool(true));
      var ran := host.run(script, sandbox);
      match ran {
        case Ok(v) => valid := v;
        case Err(e) => valid := Str(ErrorText(e));
      }
      assert valid == verdicts[b];
      if valid != Bool(true) {
        FirstRejectedAt(verdicts, b);
        assert Evaluated(verdicts) == b + 1;
        r := RuleFailed(code, valid);
        updated := WithCustom(c, script);
        return;
      }
      b := b + 1;
    }
    assert FirstRejected(verdicts).None?;
    r := RulePassed(value);
    updated := WithCustom(c, script);
  }

  /** A rejection preceded only by passes is the first rejection. */
  lemma FirstRejectedAt(verdicts: seq<Value>, b: nat)
    requires b < |verdicts| && verdicts[b] != Bool(true)
    requires forall j :: 0 <= j < b ==> verdicts[j] == Bool(true)
    ensures FirstRejected(verdicts) == Some(b)
  {
  }

  /**
   * A script that throws on a row after every earlier row passed fails the rule with the
   * error's text (fail-closed), whatever the later rows hold, and the script has then been
   * substituted once per row up to and including that one.
   */
  lemma CustomThrowFails(kind: Kind, c: Component, data: map<string, Value>, parent: Value, value: Value, host: Host,
                         b: nat, e: Thrown)
    requires c.Node? && c.validate.Some? && b < |Rows(parent)|
    requires forall j :: 0 <= j < b ==> CustomVerdict(c, data, Rows(parent), host, j) == Bool(true)
    requires var rows := Rows(parent); var script := Substituted(c.validate.value.custom, data, host, b + 1);
      host.run(script, Sandbox(InputOf(rows[b], c.key, host), data, rows[b], WithCustom(c, script), Bool(true))) == Err(e)
    ensures Outcome(TypeName(kind) + ".custom", value, CustomVerdicts(c, data, Rows(parent), host)) ==
      RuleFailed(TypeName(kind) + ".custom", Str(ErrorText(e)))
    ensures Evaluated(CustomVerdicts(c, data, Rows(parent), host)) == b + 1
  {
    var vs := CustomVerdicts(c, data, Rows(parent), host);
    assert vs[b] == Str(ErrorText(e));
    FirstRejectedAt(vs, b);
  }

  /** Over an empty array of rows the custom rule passes and leaves the script as it was. */
  lemma CustomNoRows(kind: Kind, c: Component, data: map<string, Value>, value: Value, host: Host)
    requires c.Node? && c.validate.Some?
    ensures Outcome(TypeName(kind) + ".custom", value, CustomVerdicts(c, data, Rows(Arr([])), host)) == RulePassed(value)
    ensures WithCustom(c, Substituted(c.validate.value.custom, data, host,
      Evaluated(CustomVerdicts(c, data, Rows(Arr([])), host)))) == c
  {
  }

  // ---------------------------------------------------------------------------
  // The json rule
  // ---------------------------------------------------------------------------

  /** The verdict of one row under the component's JSON logic; a throw becomes the error's message. */
  function JsonVerdict(c: Component, data: map<string, Value>, row: Value, host: Host): (valid: Value)
    requires c.Node? && c.validate.Some?
    ensures var applied := host.applyLogic(c.validate.value.json, data, row);
      (applied.Err? ==> valid == Str(applied.error.message) && valid != Bool(true))
      && (applied.Ok? ==> valid == applied.value)
  {
    match host.applyLogic(c.validate.value.json, data, row)
    case Ok(v) => v
    case Err(e) => Str(e.message)
  }

  function JsonVerdicts(c: Component, data: map<string, Value>, rows: seq<Value>, host: Host): (vs: seq<Value>)
    requires c.Node? && c.validate.Some?
    ensures |vs| == |rows|
    ensures forall b :: 0 <= b < |rows| ==> vs[b] == JsonVerdict(c, data, rows[b], host)
  {
    seq(|rows|, b requires 0 <= b < |rows| => JsonVerdict(c, data, rows[b], host))
  }

  /** The json rule on the value `value` whose parent is `parent`. */
  method JsonRule(kind: Kind, c: Component, data: map<string, Value>, parent: Value, value: Value, host: Host)
    returns (r: RuleResult)
    requires c.Node? && c.validate.Some?
    ensures r == Outcome(TypeName(kind) + ".json", value, JsonVerdicts(c, data, Rows(parent), host))
  {
    var rows := Rows(parent);
    ghost var verdicts := JsonVerdicts(c, data, rows, host);
    var code := TypeName(kind) + ".json";
    var valid := Bool(true);
    var b := 0;
    while b < |rows|
      invariant 0 <= b <= |rows|
      invariant forall j :: 0 <= j < b ==> verdicts[j] == Bool(true)
    {
      var applied := host.applyLogic(c.validate.value.json, data, rows[b]);
      match applied {
        case Ok(v) => valid := v;
        case Err(e) => valid := Str(e.message);
      }
      if valid != Bool(true) {
        FirstRejectedAt(verdicts, b);
        return RuleFailed(code, valid);
      }
      b := b + 1;
    }
    r := RulePassed(value);
  }

  /** JSON logic that throws on a row fails the rule with the message, whatever the later rows hold. */
  lemma JsonThrowFails(kind: Kind, c: Component, data: map<string, Value>, parent: Value, value: Value, host: Host, b: nat, e: Thrown)
    requires c.Node? && c.validate.Some? && b < |Rows(parent)|
    requires forall j :: 0 <= j < b ==> JsonVerdict(c, data, Rows(parent)[j], host) == Bool(true)
    requires host.applyLogic(c.validate.value.json, data, Rows(parent)[b]) == Err(e)
    ensures Outcome(TypeName(kind) + ".json", value, JsonVerdicts(c, data, Rows(parent), host)) ==
      RuleFailed(TypeName(kind) + ".json", Str(e.message))
  {
    FirstRejectedAt(JsonVerdicts(c, data, Rows(parent), host), b);
  }

  /**
   * Only the exact boolean `true` passes a row: the first row whose verdict is anything else,
   * a truthy value such as 1 or "yes" included, fails the rule with that verdict.
   */
  lemma TruthyIsNotEnough(kind: Kind, c: Component, data: map<string, Value>, parent: Value, value: Value, host: Host,
                          b: nat, v: Value)
    requires c.Node? && c.validate.Some? && b < |Rows(parent)|
    requires forall j :: 0 <= j < b ==> JsonVerdict(c, data, Rows(parent)[j], host) == Bool(true)
    requires host.applyLogic(c.validate.value.json, data, Rows(parent)[b]) == Ok(v) && v != Bool(true)
    ensures Outcome(TypeName(kind) + ".json", value, JsonVerdicts(c, data, Rows(parent), host)) ==
      RuleFailed(TypeName(kind) + ".json", v)
  {
    FirstRejectedAt(JsonVerdicts(c, data, Rows(parent), host), b);
  }
}

/**
 * The unique-value check of a submission. The components flagged `unique` are registered
 * under their key while the schema is built; afterwards each registered key, in
 * registration order, is looked up in the submission data and, unless its value is
 * falsy or empty, one query for another non-deleted submission of the same form with
 * the same value is issued. The first failing lookup or conflicting match ends the check.
 */
module Uniqueness {
  import opened JsValues
  import opened Components

  // ---------------------------------------------------------------------------
  // The registry `this.unique`
  // ---------------------------------------------------------------------------

  /** An object keyed by component key: its keys in insertion order and the component under each. */
  datatype Registry = Registry(order: seq<string>, byKey: map<string, Component>)

  /** Each key appears once in the order, and the order lists exactly the registered keys. */
  predicate RegistryValid(r: Registry)
  {
    (forall i, j :: 0 <= i < j < |r.order| ==> r.order[i] != r.order[j]) &&
    (forall k :: k in r.byKey ==> k in r.order) &&
    (forall i :: 0 <= i < |r.order| ==> r.order[i] in r.byKey)
  }

  function EmptyRegistry(): (r: Registry)
    ensures RegistryValid(r) && r.order == []
  {
    Registry([], map[])
  }

  /**
   * `this.unique[component.key] = component`: a new key goes to the end of the order, an
   * existing key keeps its place and gets the new component.
   */
  function Register(r: Registry, c: Component): (r': Registry)
    requires RegistryValid(r)
    ensures RegistryValid(r')
    ensures r'.byKey == r.byKey[KeyName(c) := c]
    ensures KeyName(c) in r.byKey ==> r'.order == r.order
    ensures KeyName(c) !in r.byKey ==> r'.order == r.order + [KeyName(c)]
  {
    var k := KeyName(c);
    Registry(if k in r.byKey then r.order else r.order + [k], r.byKey[k := c])
  }

  /** Register each component of `cs`, first to last. */
  function RegisterAll(r: Registry, cs: seq<Component>): (r': Registry)
    requires RegistryValid(r)
    ensures RegistryValid(r')
    decreases |cs|
  {
    if cs == [] then r else RegisterAll(Register(r, cs[0]), cs[1..])
  }

  /**
   * After registering a list, a key holds the last component registered under it, and the
   * order keeps every earlier key in front of the new ones.
   */
  lemma {:induction false} RegisterAllLast(r: Registry, cs: seq<Component>, i: nat)
    requires RegistryValid(r) && i < |cs|
    requires forall j :: i < j < |cs| ==> KeyName(cs[j]) != KeyName(cs[i])
    ensures KeyName(cs[i]) in RegisterAll(r, cs).byKey && RegisterAll(r, cs).byKey[KeyName(cs[i])] == cs[i]
    decreases |cs|
  {
    if i == 0 {
      RegisterAllKeeps(Register(r, cs[0]), cs[1..], KeyName(cs[0]));
    } else {
      RegisterAllLast(Register(r, cs[0]), cs[1..], i - 1);
    }
  }

  /** A key registered by none of `cs` keeps its component. */
  lemma {:induction false} RegisterAllKeeps(r: Registry, cs: seq<Component>, k: string)
    requires RegistryValid(r)
    requires forall j :: 0 <= j < |cs| ==> KeyName(cs[j]) != k
    ensures k in RegisterAll(r, cs).byKey <==> k in r.byKey
    ensures k in r.byKey ==> RegisterAll(r, cs).byKey[k] == r.byKey[k]
    decreases |cs|
  {
    if cs != [] {
      RegisterAllKeeps(Register(r, cs[0]), cs[1..], k);
    }
  }

  /** Registering two lists one after the other is registering their concatenation. */
  lemma {:induction false} RegisterAllAppend(r: Registry, a: seq<Component>, b: seq<Component>)
    requires RegistryValid(r)
    ensures RegisterAll(r, a + b) == RegisterAll(RegisterAll(r, a), b)
    decreases |a|
  {
    if a == [] {
      assert a + b == b;
    } else {
      assert (a + b)[0] == a[0] && (a + b)[1..] == a[1..] + b;
      RegisterAllAppend(Register(r, a[0]), a[1..], b);
    }
  }

  /** Registering never reorders or drops keys: the old order is a prefix of the new one. */
  lemma {:induction false} RegisterAllExtends(r: Registry, cs: seq<Component>)
    requires RegistryValid(r)
    ensures r.order <= RegisterAll(r, cs).order
    decreases |cs|
  {
    if cs != [] {
      var r1 := Register(r, cs[0]);
      RegisterAllExtends(r1, cs[1..]);
      assert r.order <= r1.order;
    }
  }

  // ---------------------------------------------------------------------------
  // The query for one key
  // ---------------------------------------------------------------------------

  /** A MongoDB condition on one field. */
  datatype Condition =
    | FormRef(formId: string)
    | MatchesRegex(pattern: string, options: string)
    | ContainsAll(items: seq<Value>)
    | EqualsNull

  type Query = map<string, Condition>

  /** The data path of a key from the path map; a key without one reads the property "undefined". */
  function PathOf(paths: map<string, string>, key: string): string
  {
    if key in paths then paths[key] else "undefined"
  }

  /** The unique check skips a value that is falsy or empty. */
  predicate Skipped(v: Value)
    ensures v.Undefined? || v.Null? || v.Num? || v.Bool? ==> Skipped(v)
    ensures v.Str? ==> (Skipped(v) <==> v.s == "")
  {
    !Truthy(v) || IsEmpty(v)
  }

  /** Only a non-empty string, array or object is checked; numbers and booleans never are. */
  lemma CheckedValues(v: Value)
    ensures !Skipped(v) <==> (v.Str? && v.s != "") || (v.Arr? && v.items != []) || (v.Obj? && v.fields != map[])
  {
    if v.Obj? && v.fields != map[] {
      var k :| k in v.fields;
      assert |v.fields| > 0;
    }
  }

  /** A value shaped like a geocoded address: an object with `address_components` and `place_id`. */
  predicate IsPlace(v: Value)
    ensures IsPlace(v) ==> !Skipped(v)
  {
    v.Obj? && "address_components" in v.fields && "place_id" in v.fields
  }

  /** A case-insensitive whole-value match, `escape` being the regular-expression escaping of the value. */
  function WholeMatch(v: Value, escape: Value -> string): Condition
  {
    MatchesRegex("^" + escape(v) + "$", "i")
  }

  /**
   * The query for the value `v` of a component at data path `path`: submissions of the
   * form that are not deleted and whose value matches.
   */
  function UniqueQuery(formId: string, path: string, v: Value, escape: Value -> string): (q: Query)
    ensures "form" in q && q["form"] == FormRef(formId)
    ensures "deleted" in q && q["deleted"] == EqualsNull
    ensures forall k :: k in q ==> k in {"form", "deleted", "data." + path, "data." + path + ".place_id"}
    ensures v.Str? ==> "data." + path in q && q["data." + path] == WholeMatch(v, escape)
    ensures IsPlace(v) ==> "data." + path + ".place_id" in q && q["data." + path + ".place_id"] == WholeMatch(v.fields["place_id"], escape)
    ensures v.Arr? ==> "data." + path in q && q["data." + path] == ContainsAll(v.items)
    ensures !v.Str? && !v.Arr? && !IsPlace(v) ==> q.Keys == {"form", "deleted"}
  {
    var base := map["form" := FormRef(formId)];
    var withField :=
      if v.Str? then base["data." + path := WholeMatch(v, escape)]
      else if IsPlace(v) then base["data." + path + ".place_id" := WholeMatch(v.fields["place_id"], escape)]
      else if v.Arr? then base["data." + path := ContainsAll(v.items)]
      else base;
    assert "deleted" !in withField by {
      assert "data." + path != "deleted" by {
        assert ("data." + path)[0] == 'd' && ("data." + path)[1] == 'a';
      }
      assert "data." + path + ".place_id" != "deleted" by {
        assert ("data." + path + ".place_id")[1] == 'a';
      }
    }
    withField["deleted" := EqualsNull]
  }

  // ---------------------------------------------------------------------------
  // The lookup loop
  // ---------------------------------------------------------------------------

  /** What `findOne` reports: an error, no match, or a matching submission with its `_id` as text. */
  datatype LookupResult = LookupFailed(message: string) | NoMatch | Match(id: string)

  /** The outcome of the unique check. */
  datatype UniqueOutcome = AllUnique | Conflict(message: string) | StoreFailed(message: string)

  /** Everything one key's check depends on besides the registry. */
  datatype Lookup = Lookup(
    data: map<string, Value>,
    paths: map<string, string>,
    formId: string,
    submissionId: Option<string>,
    escape: Value -> string,
    find: Query -> LookupResult)

  /** The submission's `_id` is truthy and equals the match's id. */
  predicate SameSubmission(id: string, env: Lookup)
  {
    env.submissionId.Some? && env.submissionId.value != "" && env.submissionId.value == id
  }

  /** The value a key's check reads from the submission data. */
  function KeyValue(key: string, env: Lookup): Value
  {
    Get(env.data, PathOf(env.paths, key))
  }

  /** The record of the check so far: its outcome and the queries issued, in order. */
  datatype Run = Run(outcome: UniqueOutcome, issued: seq<Query>)

  /** The check of one key of a run that has not failed yet. */
  function KeyStep(reg: Registry, key: string, env: Lookup, run: Run): (r: Run)
    requires key in reg.byKey
    ensures Skipped(KeyValue(key, env)) ==> r == run
    ensures !Skipped(KeyValue(key, env)) ==> |r.issued| == |run.issued| + 1
    ensures !Skipped(KeyValue(key, env)) && r.outcome.Conflict? ==> r.outcome.message == LabelText(reg.byKey[key]) + " must be unique."
  {
    var v := KeyValue(key, env);
    if Skipped(v) then run
    else
      var q := UniqueQuery(env.formId, PathOf(env.paths, key), v, env.escape);
      var issued := run.issued + [q];
      match env.find(q)
      case LookupFailed(m) => Run(StoreFailed(m), issued)
      case NoMatch => Run(AllUnique, issued)
      case Match(id) =>
        if SameSubmission(id, env) then Run(AllUnique, issued)
        else Run(Conflict(LabelText(reg.byKey[key]) + " must be unique."), issued)
  }

  /** The check over the keys `keys`, in order, stopping at the first failure. */
  function RunKeys(reg: Registry, keys: seq<string>, env: Lookup): (r: Run)
    requires forall k :: 0 <= k < |keys| ==> keys[k] in reg.byKey
    ensures |r.issued| <= |keys|
    decreases |keys|
  {
    if keys == [] then Run(AllUnique, [])
    else
      var before := RunKeys(reg, keys[..|keys| - 1], env);
      if before.outcome != AllUnique then before
      else KeyStep(reg, keys[|keys| - 1], env, before)
  }

  /** Once a prefix of the keys has failed, the later keys change nothing. */
  lemma {:induction false} RunKeysStops(reg: Registry, keys: seq<string>, i: nat, env: Lookup)
    requires forall k :: 0 <= k < |keys| ==> keys[k] in reg.byKey
    requires i <= |keys|
    requires RunKeys(reg, keys[..i], env).outcome != AllUnique
    ensures RunKeys(reg, keys, env) == RunKeys(reg, keys[..i], env)
    decreases |keys|
  {
    if i < |keys| {
      var front := keys[..|keys| - 1];
      assert front[..i] == keys[..i];
      RunKeysStops(reg, front, i, env);
    } else {
      assert keys[..i] == keys;
    }
  }

  /**
   * The check as `validate` runs it: each registered key in order, one query per checked
   * value. It returns the outcome and the queries issued.
   */
  method CheckUniques(reg: Registry, env: Lookup) returns (outcome: UniqueOutcome, issued: seq<Query>)
    requires RegistryValid(reg)
    ensures Run(outcome, issued) == RunKeys(reg, reg.order, env)
  {
    var keys := reg.order;
    outcome := AllUnique;
    issued := [];
    var i := 0;
    while i < |keys|
      invariant 0 <= i <= |keys|
      invariant outcome == AllUnique
      invariant Run(AllUnique, issued) == RunKeys(reg, keys[..i], env)
    {
      var key := keys[i];
      ghost var next := KeyStep(reg, key, env, Run(AllUnique, issued));
      assert keys[..i + 1][..i] == keys[..i] && keys[..i + 1][i] == key;
      assert RunKeys(reg, keys[..i + 1], env) == next;
      var v := KeyValue(key, env);
      if !Skipped(v) {
        var q := UniqueQuery(env.formId, PathOf(env.paths, key), v, env.escape);
        issued := issued + [q];
        var found := env.find(q);
        match found {
          case LookupFailed(m) =>
            outcome := StoreFailed(m);
          case NoMatch =>
          case Match(id) =>
            if !SameSubmission(id, env) {
              outcome := Conflict(LabelText(reg.byKey[key]) + " must be unique.");
            }
        }
        assert Run(outcome, issued) == next;
        if outcome != AllUnique {
          RunKeysStops(reg, keys, i + 1, env);
          return;
        }
      }
      i := i + 1;
    }
    assert keys[..i] == keys;
  }

  // ---------------------------------------------------------------------------
  // Properties of the check
  // ---------------------------------------------------------------------------

  /** The query names the form and excludes deleted submissions. */
  predicate Scoped(q: Query, formId: string)
  {
    "form" in q && q["form"] == FormRef(formId) && "deleted" in q && q["deleted"] == EqualsNull
  }

  /** One key adds at most one query, and a scoped one. */
  lemma KeyStepScoped(reg: Registry, key: string, env: Lookup, run: Run)
    requires key in reg.byKey
    requires forall n :: 0 <= n < |run.issued| ==> Scoped(run.issued[n], env.formId)
    ensures |KeyStep(reg, key, env, run).issued| <= |run.issued| + 1
    ensures forall n :: 0 <= n < |KeyStep(reg, key, env, run).issued| ==> Scoped(KeyStep(reg, key, env, run).issued[n], env.formId)
  {
    var v := KeyValue(key, env);
    if !Skipped(v) {
      var q := UniqueQuery(env.formId, PathOf(env.paths, key), v, env.escape);
      assert Scoped(q, env.formId);
      assert KeyStep(reg, key, env, run).issued == run.issued + [q];
    }
  }

  /** Each query issued belongs to a checked key and scopes the search to the form's non-deleted submissions. */
  lemma {:induction false} IssuedQueriesAreScoped(reg: Registry, keys: seq<string>, env: Lookup)
    requires forall k :: 0 <= k < |keys| ==> keys[k] in reg.byKey
    ensures |RunKeys(reg, keys, env).issued| <= |keys|
    ensures forall n :: 0 <= n < |RunKeys(reg, keys, env).issued| ==> Scoped(RunKeys(reg, keys, env).issued[n], env.formId)
    decreases |keys|
  {
    if keys != [] {
      var front := keys[..|keys| - 1];
      IssuedQueriesAreScoped(reg, front, env);
      var before := RunKeys(reg, front, env);
      if before.outcome == AllUnique {
        KeyStepScoped(reg, keys[|keys| - 1], env, before);
      }
    }
  }

  /** A checked key passes when its query finds nothing or finds this very submission. */
  predicate KeyPasses(key: string, env: Lookup)
  {
    var v := KeyValue(key, env);
    Skipped(v) ||
    var found := env.find(UniqueQuery(env.formId, PathOf(env.paths, key), v, env.escape));
    found == NoMatch || (found.Match? && SameSubmission(found.id, env))
  }

  /** From a passing run, one key keeps the run passing exactly when the key passes. */
  lemma KeyStepPasses(reg: Registry, key: string, env: Lookup, run: Run)
    requires key in reg.byKey && run.outcome == AllUnique
    ensures KeyStep(reg, key, env, run).outcome == AllUnique <==> KeyPasses(key, env)
  {
  }

  /** Every key of the list passes. */
  predicate AllPass(keys: seq<string>, env: Lookup)
  {
    forall k :: 0 <= k < |keys| ==> KeyPasses(keys[k], env)
  }

  /** Every key of a non-empty list passes exactly when every key but the last passes and the last one does. */
  lemma AllPassSplit(keys: seq<string>, env: Lookup)
    requires keys != []
    ensures AllPass(keys, env) <==> AllPass(keys[..|keys| - 1], env) && KeyPasses(keys[|keys| - 1], env)
  {
    var front := keys[..|keys| - 1];
    if AllPass(front, env) && KeyPasses(keys[|keys| - 1], env) {
      forall k | 0 <= k < |keys|
        ensures KeyPasses(keys[k], env)
      {
        if k < |front| {
          assert keys[k] == front[k];
        }
      }
    }
    if AllPass(keys, env) {
      forall k | 0 <= k < |front|
        ensures KeyPasses(front[k], env)
      {
        assert front[k] == keys[k];
      }
    }
  }

  /** The check passes exactly when every key passes: no lookup fails and no other submission holds a checked value. */
  lemma {:induction false} AllUniqueIff(reg: Registry, keys: seq<string>, env: Lookup)
    requires forall k :: 0 <= k < |keys| ==> keys[k] in reg.byKey
    ensures RunKeys(reg, keys, env).outcome == AllUnique <==> AllPass(keys, env)
    decreases |keys|
  {
    if keys != [] {
      var front := keys[..|keys| - 1];
      AllUniqueIff(reg, front, env);
      AllPassSplit(keys, env);
      var before := RunKeys(reg, front, env);
      if before.outcome == AllUnique {
        KeyStepPasses(reg, keys[|keys| - 1], env, before);
      }
    }
  }

  /** A conflict names the label of a registered component whose value another submission holds. */
  lemma {:induction false} ConflictNamesComponent(reg: Registry, keys: seq<string>, env: Lookup)
    requires forall k :: 0 <= k < |keys| ==> keys[k] in reg.byKey
    requires RunKeys(reg, keys, env).outcome.Conflict?
    ensures exists k :: (0 <= k < |keys| && !Skipped(KeyValue(keys[k], env)) &&
      RunKeys(reg, keys, env).outcome.message == LabelText(reg.byKey[keys[k]]) + " must be unique." &&
      var q := UniqueQuery(env.formId, PathOf(env.paths, keys[k]), KeyValue(keys[k], env), env.escape);
      env.find(q).Match? && !SameSubmission(env.find(q).id, env))
    decreases |keys|
  {
    var front := keys[..|keys| - 1];
    var last := |keys| - 1;
    if RunKeys(reg, front, env).outcome != AllUnique {
      ConflictNamesComponent(reg, front, env);
      var k :| 0 <= k < |front| && !Skipped(KeyValue(front[k], env)) &&
        RunKeys(reg, front, env).outcome.message == LabelText(reg.byKey[front[k]]) + " must be unique." &&
        var q := UniqueQuery(env.formId, PathOf(env.paths, front[k]), KeyValue(front[k], env), env.escape);
        env.find(q).Match? && !SameSubmission(env.find(q).id, env);
      assert front[k] == keys[k];
    } else {
      assert !Skipped(KeyValue(keys[last], env));
    }
  }

  /** A skipped value issues no query: the run over the keys is the run without it. */
  lemma SkippedKeyIssuesNothing(reg: Registry, keys: seq<string>, key: string, env: Lookup)
    requires forall k :: 0 <= k < |keys| ==> keys[k] in reg.byKey
    requires key in reg.byKey && Skipped(KeyValue(key, env))
    ensures RunKeys(reg, keys + [key], env) == RunKeys(reg, keys, env)
  {
    assert (keys + [key])[..|keys|] == keys;
  }

  /** A match on the submission's own `_id` is not a conflict. */
  lemma OwnMatchPasses(reg: Registry, key: string, env: Lookup)
    requires key in reg.byKey && !Skipped(KeyValue(key, env))
    requires var q := UniqueQuery(env.formId, PathOf(env.paths, key), KeyValue(key, env), env.escape);
      env.find(q).Match? && SameSubmission(env.find(q).id, env)
    ensures RunKeys(reg, [key], env).outcome == AllUnique
    ensures |RunKeys(reg, [key], env).issued| == 1
  {
    assert [key][..0] == [];
  }
}

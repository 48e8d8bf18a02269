/**
 * The role action: the checks of its settings in the order `resolve` runs them, the choice of
 * the resource and the role, the `disableDefaultAction` flag, and the edits of a resource's
 * role list that add or remove one role.
 */
module RoleAction {
  import opened JsValues

  // ---------------------------------------------------------------------------
  // Settings and selection
  // ---------------------------------------------------------------------------

  /** The action's `settings`: `association`, `type` and `role`. */
  datatype Settings = Settings(association: Value, kind: Value, role: Value)

  /**
   * The outcome of `resolve` before any lookup: an error message given to `next`, a
   * TypeError from reading a property of `undefined` or `null`, or the resource and role
   * the manipulation goes on with.
   */
  datatype Resolution = Rejected(message: string) | Crashed | Proceed(resource: Value, role: Value)

  const BadAssociation := "Invalid setting `association` for the RoleAction; expecting `new` or `existing`."
  const BadType := "Invalid setting `type` for the RoleAction; expecting `add` or `remove`."
  const BadNewResource := "Invalid resource was provided for RoleAction association of `new`."
  const MissingRole := "Missing role for RoleAction association of `existing`. Must specify role to assign in action settings or a form component named `role`"
  const MissingSubmission := "Missing submission for RoleAction association of `existing`. Form must have a resource field named `submission`."

  /** `v.name`: reading a property of `undefined` or `null` throws; any other value answers. */
  function Member(v: Value, name: string): (r: Result<Value, ()>)
    ensures r.Ok? <==> !v.Undefined? && !v.Null?
    ensures r.Ok? && v.Obj? && name in v.fields ==> r.value == v.fields[name]
    ensures r.Ok? && !v.Obj? ==> r.value == Undefined
  {
    if v.Undefined? || v.Null? then Err(()) else Ok(Field(v, name))
  }

  /**
   * `resolve` up to the lookups: the five checks in order, then the selection. `data` is the
   * request's submission data and `resource` the response's own `resource` property, `None`
   * when it has none.
   */
  function Resolve(settings: Settings, data: map<string, Value>, resource: Option<Value>): (r: Resolution)
    ensures r.Proceed? ==> settings.association in {Str("existing"), Str("new")}
    ensures r.Proceed? ==> settings.kind in {Str("add"), Str("remove")}
    ensures r.Crashed? ==> settings.association == Str("new") && (resource.None? || resource.value in {Undefined, Null})
  {
    var assoc := settings.association;
    var role := settings.role;
    var dataRole := if "role" in data then data["role"] else Undefined;
    var dataSubmission := if "submission" in data then data["submission"] else Undefined;
    if assoc != Str("existing") && assoc != Str("new") then Rejected(BadAssociation)
    else if !Truthy(settings.kind) || (settings.kind != Str("add") && settings.kind != Str("remove")) then Rejected(BadType)
    else if assoc == Str("new") && resource.Some? && Member(resource.value, "item").Err? then Crashed
    else if assoc == Str("new") && resource.Some? && !Truthy(Member(resource.value, "item").value) && Truthy(role) then
      Rejected(BadNewResource)
    else if assoc == Str("existing") && !(Truthy(role) || Truthy(dataRole)) then Rejected(MissingRole)
    else if assoc == Str("existing") && !Truthy(dataSubmission) then Rejected(MissingSubmission)
    else if assoc == Str("existing") then Proceed(dataSubmission, if Truthy(role) then role else dataRole)
    else if resource.None? then Crashed
    else Proceed(Member(resource.value, "item").value, role)
  }

  /** An association other than the two names is refused first, whatever else the request holds. */
  lemma AssociationCheckedFirst(settings: Settings, data: map<string, Value>, resource: Option<Value>)
    requires settings.association != Str("existing") && settings.association != Str("new")
    ensures Resolve(settings, data, resource) == Rejected(BadAssociation)
  {
  }

  /** With a valid association, a type other than `add` or `remove` is refused next. */
  lemma TypeCheckedSecond(settings: Settings, data: map<string, Value>, resource: Option<Value>)
    requires settings.association in {Str("existing"), Str("new")}
    requires settings.kind != Str("add") && settings.kind != Str("remove")
    ensures Resolve(settings, data, resource) == Rejected(BadType)
  {
  }

  /**
   * An existing association needs a role from the settings or the data, then the data's
   * `submission`; it goes on with that submission and the settings' role when truthy, else the data's.
   */
  lemma ExistingSelection(settings: Settings, data: map<string, Value>, resource: Option<Value>)
    requires settings.association == Str("existing") && settings.kind in {Str("add"), Str("remove")}
    ensures var dataRole := if "role" in data then data["role"] else Undefined;
      var dataSubmission := if "submission" in data then data["submission"] else Undefined;
      Resolve(settings, data, resource) ==
        if !(Truthy(settings.role) || Truthy(dataRole)) then Rejected(MissingRole)
        else if !Truthy(dataSubmission) then Rejected(MissingSubmission)
        else Proceed(dataSubmission, if Truthy(settings.role) then settings.role else dataRole)
  {
  }

  /**
   * A new association goes on with the response's `resource.item` and the settings' role;
   * a falsy item is refused only when a role is configured.
   */
  lemma NewSelection(settings: Settings, data: map<string, Value>, resource: Value)
    requires settings.association == Str("new") && settings.kind in {Str("add"), Str("remove")}
    requires !resource.Undefined? && !resource.Null?
    ensures var item := Field(resource, "item");
      Resolve(settings, data, Some(resource)) ==
        if !Truthy(item) && Truthy(settings.role) then Rejected(BadNewResource) else Proceed(item, settings.role)
  {
  }

  /** A new association on a response without a `resource` passes the checks and then throws on `res.resource.item`. */
  lemma NewWithoutResourceCrashes(settings: Settings, data: map<string, Value>)
    requires settings.association == Str("new") && settings.kind in {Str("add"), Str("remove")}
    ensures Resolve(settings, data, None) == Crashed
  {
  }

  // ---------------------------------------------------------------------------
  // disableDefaultAction
  // ---------------------------------------------------------------------------

  /**
   * Whether `v.toString()` is "existing". A string is itself; an array is its entries joined
   * with ',', so only a one-entry array can give a comma-free text; numbers, booleans and
   * plain objects never give it.
   */
  predicate ReadsAsExisting(v: Value)
    ensures ReadsAsExisting(v) ==> v.Str? || (v.Arr? && |v.items| == 1)
    ensures v.Str? ==> (ReadsAsExisting(v) <==> v.s == "existing")
    decreases v
  {
    match v
    case Str(s) => s == "existing"
    case Arr(items) => |items| == 1 && !items[0].Undefined? && !items[0].Null? && ReadsAsExisting(items[0])
    case _ => false
  }

  /** `req.disableDefaultAction`, or a TypeError when the association is `undefined` or `null`. */
  function DisableDefaultAction(association: Value): (r: Result<bool, ()>)
    ensures r.Err? <==> association.Undefined? || association.Null?
    ensures association.Str? ==> r == Ok(association.s == "existing")
    ensures association.Num? || association.Bool? || association.Obj? ==> r == Ok(false)
    ensures association.Arr? && |association.items| != 1 ==> r == Ok(false)
  {
    if association.Undefined? || association.Null? then Err(()) else Ok(ReadsAsExisting(association))
  }

  /** For a string association, the default action is disabled exactly when `resolve` takes the existing branch. */
  lemma DisableAgreesForStrings(s: string)
    ensures DisableDefaultAction(Str(s)) == Ok(true) <==> Str(s) == Str("existing")
  {
  }

  /** `['existing']` disables the default action although `resolve` refuses it as an association. */
  lemma ArrayAssociationDisagrees(settings: Settings, data: map<string, Value>, resource: Option<Value>)
    requires settings.association == Arr([Str("existing")])
    ensures DisableDefaultAction(settings.association) == Ok(true)
    ensures Resolve(settings, data, resource) == Rejected(BadAssociation)
  {
  }

  // ---------------------------------------------------------------------------
  // Role lists
  // ---------------------------------------------------------------------------

  /** An entry of a resource's `roles`: a falsy value, or a truthy one with its `toString()`. */
  datatype RoleEntry = Falsy | Id(text: string)

  /** The texts of the truthy entries, in order. */
  function Texts(roles: seq<RoleEntry>): (texts: seq<string>)
    ensures |texts| <= |roles|
    ensures forall t :: t in texts <==> Id(t) in roles
    ensures |roles| == 1 ==> texts == match roles[0] case Falsy => [] case Id(t) => [t]
    decreases |roles|
  {
    if roles == [] then []
    else
      var front := Texts(roles[..|roles| - 1]);
      assert forall e :: e in roles <==> e in roles[..|roles| - 1] || e == roles[|roles| - 1];
      match roles[|roles| - 1]
      case Falsy => front
      case Id(t) => front + [t]
  }

  /** `compare` keeps the entries' order and repeats: the texts of two lists joined are the two lists' texts joined. */
  lemma {:induction false} TextsConcat(a: seq<RoleEntry>, b: seq<RoleEntry>)
    ensures Texts(a + b) == Texts(a) + Texts(b)
    decreases |b|
  {
    if b == [] {
      assert a + b == a;
    } else {
      var n := |b| - 1;
      assert (a + b)[..|a + b| - 1] == a + b[..n];
      assert (a + b)[|a + b| - 1] == b[n];
      TextsConcat(a, b[..n]);
    }
  }

  /** The roles written back: each text becomes an id again, and reading them back gives the texts. */
  function Ids(texts: seq<string>): (roles: seq<RoleEntry>)
    ensures |roles| == |texts|
    ensures forall i :: 0 <= i < |texts| ==> roles[i] == Id(texts[i])
    ensures Texts(roles) == texts
    decreases |texts|
  {
    if texts == [] then []
    else
      var front := Ids(texts[..|texts| - 1]);
      var roles := front + [Id(texts[|texts| - 1])];
      assert roles[..|roles| - 1] == front;
      assert texts[..|texts| - 1] + [texts[|texts| - 1]] == texts;
      roles
  }

  predicate NoDuplicates(s: seq<string>)
  {
    forall i, j :: 0 <= i < j < |s| ==> s[i] != s[j]
  }

  /** lodash `_.uniq`: the first occurrence of each text, in order. */
  function Dedup(s: seq<string>): (d: seq<string>)
    ensures NoDuplicates(d)
    ensures forall x :: x in d <==> x in s
    decreases |s|
  {
    if s == [] then []
    else
      var d := Dedup(s[..|s| - 1]);
      var x := s[|s| - 1];
      assert forall y :: y in s <==> y in s[..|s| - 1] || y == x;
      if x in d then d else d + [x]
  }

  /** lodash `_.pull`: every occurrence of `x` removed, the rest in order. */
  function Pull(s: seq<string>, x: string): (p: seq<string>)
    ensures forall y :: y in p <==> y in s && y != x
    decreases |s|
  {
    if s == [] then []
    else
      var p := Pull(s[..|s| - 1], x);
      assert forall y :: y in s <==> y in s[..|s| - 1] || y == s[|s| - 1];
      if s[|s| - 1] == x then p else p + [s[|s| - 1]]
  }

  /** The position of the first occurrence of `x` in `s`. */
  function IndexOf(s: seq<string>, x: string): (i: nat)
    requires x in s
    ensures i < |s| && s[i] == x && x !in s[..i]
  {
    if s[0] == x then 0 else
      assert x in s[1..];
      1 + IndexOf(s[1..], x)
  }

  /** An element of a prefix has its first occurrence in the prefix. */
  lemma {:induction false} IndexOfPrefix(s: seq<string>, n: nat, x: string)
    requires n <= |s| && x in s[..n]
    ensures IndexOf(s, x) == IndexOf(s[..n], x)
  {
    if s[0] != x {
      assert s[1..][..n - 1] == s[..n][1..];
      IndexOfPrefix(s[1..], n - 1, x);
    }
  }

  /** `_.uniq` keeps the order of first occurrences. */
  lemma {:induction false} DedupKeepsOrder(s: seq<string>)
    ensures forall i, j :: 0 <= i < j < |Dedup(s)| ==> IndexOf(s, Dedup(s)[i]) < IndexOf(s, Dedup(s)[j])
    decreases |s|
  {
    if s != [] {
      var n := |s| - 1;
      var front := s[..n];
      var d := Dedup(front);
      DedupKeepsOrder(front);
      forall y | y in d
        ensures IndexOf(s, y) == IndexOf(front, y) && IndexOf(s, y) < n
      {
        IndexOfPrefix(s, n, y);
      }
      if s[n] !in d {
        assert s[n] !in front;
        assert IndexOf(s, s[n]) == n by {
          assert s[..n] == front;
        }
      }
    }
  }

  /** Appending a text the list lacks puts it last, once, after the deduplicated list. */
  lemma DedupAppendNew(s: seq<string>, x: string)
    requires x !in s
    ensures Dedup(s + [x]) == Dedup(s) + [x]
  {
    assert (s + [x])[..|s|] == s;
  }

  /** On a list without duplicates `_.uniq` changes nothing. */
  lemma {:induction false} DedupOfDistinct(s: seq<string>)
    requires NoDuplicates(s)
    ensures Dedup(s) == s
    decreases |s|
  {
    if s != [] {
      var front := s[..|s| - 1];
      DedupOfDistinct(front);
      assert s[|s| - 1] !in front;
      assert front + [s[|s| - 1]] == s;
    }
  }

  /** `_.pull` keeps the other texts in their order: pulling piecewise is pulling the whole. */
  lemma {:induction false} PullConcat(a: seq<string>, b: seq<string>, x: string)
    ensures Pull(a + b, x) == Pull(a, x) + Pull(b, x)
    decreases |b|
  {
    if b == [] {
      assert a + b == a;
    } else {
      var n := |b| - 1;
      assert (a + b)[..|a + b| - 1] == a + b[..n];
      PullConcat(a, b[..n], x);
    }
  }

  /** A resource whose `roles` list the action edits in place. */
  class Resource {
    var roles: seq<RoleEntry>

    constructor (roles: seq<RoleEntry>)
      ensures this.roles == roles
    {
      this.roles := roles;
    }

    /** The `compare` list: the `toString()` of each truthy entry, by a loop over the entries. */
    static method Compare(roles: seq<RoleEntry>) returns (compare: seq<string>)
      ensures compare == Texts(roles)
    {
      compare := [];
      var i := 0;
      while i < |roles|
        invariant 0 <= i <= |roles|
        invariant compare == Texts(roles[..i])
      {
        assert roles[..i + 1][..i] == roles[..i];
        match roles[i] {
          case Falsy =>
          case Id(t) => compare := compare + [t];
        }
        i := i + 1;
      }
      assert roles[..i] == roles;
    }

    /**
     * `addRole(role, resource)`: when the role is already among the entries nothing changes
     * and nothing is saved; otherwise the roles become the distinct texts with the role last,
     * and the resource is saved.
     */
    method AddRole(role: string) returns (saved: bool)
      modifies this
      ensures saved <==> role !in Texts(old(roles))
      ensures !saved ==> roles == old(roles)
      ensures saved ==> roles == Ids(Dedup(Texts(old(roles)) + [role]))
    {
      var compare := Compare(roles);
      if role in compare {
        return false;
      }
      compare := compare + [role];
      compare := Dedup(compare);
      roles := Ids(compare);
      saved := true;
    }

    /**
     * `removeRole(role, resource)`: when the role is not among the entries nothing changes
     * and nothing is saved; otherwise the roles become the distinct texts other than the role,
     * and the resource is saved.
     */
    method RemoveRole(role: string) returns (saved: bool)
      modifies this
      ensures saved <==> role in Texts(old(roles))
      ensures !saved ==> roles == old(roles)
      ensures saved ==> roles == Ids(Dedup(Pull(Texts(old(roles)), role)))
    {
      var compare := Compare(roles);
      if role !in compare {
        return false;
      }
      compare := Dedup(Pull(compare, role));
      roles := Ids(compare);
      saved := true;
    }
  }

  /** After adding, the role is present exactly once, last, and every earlier text is kept once. */
  lemma AddedRoleOnceAndLast(before: seq<RoleEntry>, role: string)
    requires role !in Texts(before)
    ensures var after := Dedup(Texts(before) + [role]);
      after == Dedup(Texts(before)) + [role] && NoDuplicates(after) &&
      (forall t :: t in after <==> t == role || Id(t) in before)
  {
    DedupAppendNew(Texts(before), role);
  }

  /** After removing, the role is gone, every other text is kept once, in the order of first occurrence. */
  lemma RemovedRoleGone(before: seq<RoleEntry>, role: string)
    ensures var after := Dedup(Pull(Texts(before), role));
      role !in after && NoDuplicates(after) &&
      (forall t :: t != role ==> (t in after <==> Id(t) in before)) &&
      (forall i, j :: 0 <= i < j < |after| ==> IndexOf(Pull(Texts(before), role), after[i]) < IndexOf(Pull(Texts(before), role), after[j]))
  {
    DedupKeepsOrder(Pull(Texts(before), role));
  }
}

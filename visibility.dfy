/**
 * The visibility rules of the sanitize pass: whether a component is shown, through its own
 * custom conditional or declarative condition and those of its ancestors, and whether it is
 * kept (`include`) or has its data path omitted.
 */
module Visibility {
  import opened JsValues
  import opened Components

  /**
   * The outcomes of the scripts and conditions for the submission being sanitized.
   * `customConditional(script)` is the script's `show` as a boolean when it reads as one,
   * `None` when it does not, or what it threw (an exceeded time budget included);
   * `checkCondition(c)` is the declarative condition's result or what it threw.
   */
  datatype Conditions = Conditions(
    customConditional: string -> Result<Option<bool>, Thrown>,
    checkCondition: Component -> Result<bool, Thrown>)

  /** `_evaluateCustomConditional`: the script's boolean `show`, and visible on anything else. */
  function CustomConditionalShows(r: Result<Option<bool>, Thrown>): (shown: bool)
    ensures !shown <==> r == Ok(Some(false))
  {
    match r
    case Ok(Some(b)) => b
    case _ => true
  }

  /** `checkComponentVisibility`: a component's own visibility, ignoring its ancestors. */
  function OwnVisibility(c: Component, conds: Conditions): (shown: bool)
    requires c.Node?
    ensures c.key.None? ==> shown
    ensures !shown <==>
      (c.key.Some? && c.customConditional != "" && conds.customConditional(c.customConditional) == Ok(Some(false))) ||
      (c.key.Some? && c.customConditional == "" && conds.checkCondition(c) == Ok(false))
  {
    if c.key.None? then true
    else if c.customConditional != "" then CustomConditionalShows(conds.customConditional(c.customConditional))
    else
      match conds.checkCondition(c)
      case Ok(b) => b
      case Err(_) => true
  }

  /**
   * `isVisible(component)`: `ancestors` is the chain of `parent` references, nearest first.
   * A component without a truthy key is visible without looking at its ancestors.
   */
  function IsVisible(c: Component, ancestors: seq<Component>, conds: Conditions): (shown: bool)
    ensures !HasKey(c) ==> shown
    ensures HasKey(c) && shown ==> OwnVisibility(c, conds)
    ensures HasKey(c) && ancestors != [] && HasKey(ancestors[0]) && shown ==> OwnVisibility(ancestors[0], conds)
    decreases |ancestors|
  {
    if HasKey(c) then
      var parentVisible := ancestors == [] || IsVisible(ancestors[0], ancestors[1..], conds);
      parentVisible && OwnVisibility(c, conds)
    else true
  }

  /** The number of leading components of a chain that have a truthy key. */
  function KeyedPrefix(chain: seq<Component>): (n: nat)
    ensures n <= |chain|
    ensures forall i :: 0 <= i < n ==> HasKey(chain[i])
    ensures n < |chain| ==> !HasKey(chain[n])
  {
    if chain == [] || !HasKey(chain[0]) then 0 else 1 + KeyedPrefix(chain[1..])
  }

  /**
   * A component is visible exactly when every component of its chain up to the first one
   * without a key passes its own check.
   */
  lemma {:induction false} VisibleIffKeyedChainShows(c: Component, ancestors: seq<Component>, conds: Conditions)
    ensures var chain := [c] + ancestors;
      IsVisible(c, ancestors, conds) <==>
        forall i :: 0 <= i < KeyedPrefix(chain) ==> OwnVisibility(chain[i], conds)
    decreases |ancestors|
  {
    var chain := [c] + ancestors;
    if HasKey(c) {
      assert chain[0] == c && chain[1..] == ancestors;
      assert KeyedPrefix(chain) == 1 + KeyedPrefix(ancestors);
      if ancestors != [] {
        VisibleIffKeyedChainShows(ancestors[0], ancestors[1..], conds);
        assert [ancestors[0]] + ancestors[1..] == ancestors;
      }
      forall i | 1 <= i < KeyedPrefix(chain)
        ensures chain[i] == ancestors[i - 1]
      {
      }
    }
  }

  /** A chain whose first `m` components are keyed has a keyed prefix of at least `m`. */
  lemma {:induction false} KeyedPrefixAtLeast(chain: seq<Component>, m: nat)
    requires m <= |chain|
    requires forall i :: 0 <= i < m ==> HasKey(chain[i])
    ensures KeyedPrefix(chain) >= m
  {
    if m > 0 {
      KeyedPrefixAtLeast(chain[1..], m - 1);
    }
  }

  /** A keyless component is visible whatever its ancestors. */
  lemma KeylessIsVisible(c: Component, ancestors: seq<Component>, conds: Conditions)
    requires !HasKey(c)
    ensures IsVisible(c, ancestors, conds)
  {
  }

  /** A hidden keyed ancestor, reached through keyed components only, hides the component. */
  lemma HiddenAncestorHides(c: Component, ancestors: seq<Component>, j: nat, conds: Conditions)
    requires HasKey(c) && j < |ancestors|
    requires forall i :: 0 <= i <= j ==> HasKey(ancestors[i])
    requires HasKey(ancestors[j]) && !OwnVisibility(ancestors[j], conds)
    ensures !IsVisible(c, ancestors, conds)
  {
    var chain := [c] + ancestors;
    VisibleIffKeyedChainShows(c, ancestors, conds);
    forall i | 0 <= i < j + 2
      ensures HasKey(chain[i])
    {
      if i > 0 {
        assert chain[i] == ancestors[i - 1];
      }
    }
    KeyedPrefixAtLeast(chain, j + 2);
    assert chain[j + 1] == ancestors[j];
  }

  /** Script and condition failures fail open: the component counts as shown. */
  lemma FailuresAreVisible(c: Component, conds: Conditions)
    requires c.Node? && c.key.Some?
    ensures c.customConditional != "" && conds.customConditional(c.customConditional).Err? ==> OwnVisibility(c, conds)
    ensures c.customConditional != "" && conds.customConditional(c.customConditional) == Ok(None) ==> OwnVisibility(c, conds)
    ensures c.customConditional == "" && conds.checkCondition(c).Err? ==> OwnVisibility(c, conds)
  {
  }

  // ---------------------------------------------------------------------------
  // Include and omit
  // ---------------------------------------------------------------------------

  /** `clearOnHide`, true unless it reads as the boolean false. */
  predicate ClearOnHide(c: Component)
  {
    !(c.Node? && c.clearOnHide.Some? && !c.clearOnHide.value)
  }

  /** One component as the walk of the form yields it: the component, its data path and its parent chain. */
  datatype Visit = Visit(component: Component, path: string, ancestors: seq<Component>)

  /** `!clearOnHide || isVisible(component)`. */
  predicate Included(v: Visit, conds: Conditions)
    ensures !HasKey(v.component) ==> Included(v, conds)
    ensures !Included(v, conds) ==> ClearOnHide(v.component) && HasKey(v.component)
  {
    !ClearOnHide(v.component) || IsVisible(v.component, v.ancestors, conds)
  }

  /** `this.include` after the walk: each visit sets the entry of its key, later visits winning. */
  function IncludeAll(included: map<string, bool>, visits: seq<Visit>, conds: Conditions): (r: map<string, bool>)
    ensures included.Keys <= r.Keys
    ensures forall i :: 0 <= i < |visits| ==> KeyName(visits[i].component) in r
    decreases |visits|
  {
    if visits == [] then included
    else
      var v := visits[|visits| - 1];
      IncludeAll(included, visits[..|visits| - 1], conds)[KeyName(v.component) := Included(v, conds)]
  }

  /** The `omit` list: the paths of the visits that are not included, in walk order. */
  function OmittedPaths(visits: seq<Visit>, conds: Conditions): (omit: seq<string>)
    ensures |omit| <= |visits|
    decreases |visits|
  {
    if visits == [] then []
    else
      var v := visits[|visits| - 1];
      OmittedPaths(visits[..|visits| - 1], conds) + (if Included(v, conds) then [] else [v.path])
  }

  /** A component whose `clearOnHide` is false is always included. */
  lemma KeptWhenNotClearedOnHide(v: Visit, conds: Conditions)
    requires v.component.Node? && v.component.clearOnHide == Some(false)
    ensures Included(v, conds)
  {
  }

  /** The include entry of a key is the verdict of the last visit of a component with that key. */
  lemma {:induction false} IncludeOfLastVisit(included: map<string, bool>, visits: seq<Visit>, conds: Conditions, i: nat)
    requires i < |visits|
    requires forall j :: i < j < |visits| ==> KeyName(visits[j].component) != KeyName(visits[i].component)
    ensures var k := KeyName(visits[i].component);
      k in IncludeAll(included, visits, conds) && IncludeAll(included, visits, conds)[k] == Included(visits[i], conds)
    decreases |visits|
  {
    var n := |visits| - 1;
    if i < n {
      var front := visits[..n];
      assert front[i] == visits[i];
      forall j | i < j < |front|
        ensures KeyName(front[j].component) != KeyName(front[i].component)
      {
        assert front[j] == visits[j];
      }
      IncludeOfLastVisit(included, front, conds, i);
    }
  }

  /** A key that no visited component has keeps its include entry, or its absence. */
  lemma {:induction false} IncludeUntouched(included: map<string, bool>, visits: seq<Visit>, conds: Conditions, k: string)
    requires forall i :: 0 <= i < |visits| ==> KeyName(visits[i].component) != k
    ensures k in IncludeAll(included, visits, conds) <==> k in included
    ensures k in included ==> IncludeAll(included, visits, conds)[k] == included[k]
    decreases |visits|
  {
    if visits != [] {
      var n := |visits| - 1;
      var front := visits[..n];
      forall i | 0 <= i < n
        ensures KeyName(front[i].component) != k
      {
        assert front[i] == visits[i];
      }
      IncludeUntouched(included, front, conds, k);
    }
  }

  /** A path is omitted exactly when some visit with that path is not included. */
  lemma {:induction false} OmittedPathsExactly(visits: seq<Visit>, conds: Conditions)
    ensures forall i :: 0 <= i < |visits| && !Included(visits[i], conds) ==> visits[i].path in OmittedPaths(visits, conds)
    ensures forall p :: p in OmittedPaths(visits, conds) ==>
      exists i :: 0 <= i < |visits| && visits[i].path == p && !Included(visits[i], conds)
    decreases |visits|
  {
    if visits != [] {
      var n := |visits| - 1;
      var front := visits[..n];
      OmittedPathsExactly(front, conds);
      forall i | 0 <= i < n
        ensures front[i] == visits[i]
      {
      }
    }
  }
}

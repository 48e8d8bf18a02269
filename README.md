# Form submission validation and the role action

This project models two pieces of a form server, as Dafny, and proves properties of them.

The first piece is the submission **validator**, in `src/resources/Validator.js`. It runs in four stages:

- **Sanitize.** It walks the form's components and decides, for each keyed component, whether it is included. A component is included when it is not cleared on hide, or when it is visible. Visibility comes from the component's own custom conditional script or declarative condition, and from those of its keyed ancestors. The data paths of excluded components are omitted from the submission.
- **Build the schema.** It compiles the component tree into a Joi object schema with an `_id` entry:
  - text, email, number and signature fields get typed validators with length, bound and step checks;
  - datagrid, editgrid and container components nest their children;
  - fieldset, panel, well, table and columns are transparent;
  - the required, pattern, custom and json rules attach to keyed, dot-free, persistent components;
  - `multiple` wraps the field as a sparse array.

  It also records the components flagged `unique`.
- **Check uniqueness.** For every unique key with a non-empty value, it issues one database query scoped to the form and to non-deleted submissions. It stops at the first conflict or lookup failure.
- **Validate.** The sanitized data is validated against the schema.

The custom rule runs its script once per row of the parent value, stops at the first verdict that is not `true`, and rewrites the component's script with the `{{ }}` substitution. The json (JSON Logic) rule is the same, with an evaluator in place of the script.

The second piece is the **role action**, in `src/actions/RoleAction.js`. It checks the action's settings in a fixed order and selects the resource and the role. It then adds the role to the resource's role list, or removes it. Both work on the string forms of the truthy entries, deduplicate them, and save only when the list changes.

Layout of the Dafny modules:

- `JsValues` (`js_values.dfy`): JavaScript values, truthiness, `split`/`join`, and lodash-style `_.get`/`_.unset`/`_.omit` on dot paths.
- `Components` (`components.dfy`): the component tree and its type classes.
- `JoiModel` (`joi_model.dfy`): the schema values and `addValidator` as recursive functions.
- `Visibility` (`visibility.dfy`): the visibility and include rules of sanitize.
- `CustomRules` (`rules.dfy`): the custom and json row rules.
- `Uniqueness` (`uniqueness.dfy`): the unique registry, the query builder and the unique loop.
- `FormValidator` (`validator.dfy`): the `Validator` object with its mutable `include`, `unique` and schema state, and the submission whose `data` it rewrites.
- `RoleAction` (`roles.dfy`): settings resolution, `disableDefaultAction`, and the resource whose `roles` list is updated in place.

Several things are parameters of the model rather than code in it:

- the Joi runtime;
- the sandboxed script runner;
- the JSON Logic evaluator;
- the `{{ }}` interpolation;
- regex compilation;
- regex escaping;
- the database lookup;
- the outcomes of conditional scripts.

Each is a function-typed field of a record (`Env`, `Host`, `Lookup`, `Conditions`) or an argument. The traversal done by `util.eachComponent` is given as the sequence of visits it yields.

The component type names follow the code: `textfield`, `textarea` and `phonenumber` are the text types. Only Joi's string type has `.regex`. A pattern on a number, object, array or any-value validator, or on a type without a validator, makes the call throw, and the code catches and logs that, so the pattern attaches nothing there. Only required, custom, json or `multiple` make a type without a validator fail to build.

## Model

| member | source | states |
|---|---|---|
| JsValues.SplitJoin | src/resources/Validator.js:292-298 | splitting a string on a separator and joining the pieces back gives the string, and no piece contains the separator |
| JsValues.SplitSingle | src/resources/Validator.js:292-294 | `split('.')` yields one piece exactly when the string has no '.' |
| JsValues.UnsetLookup | src/resources/Validator.js:464 | after unsetting a path, everything under it reads as undefined, and paths unrelated to it read as before |
| JsValues.UnsetAllLookup | src/resources/Validator.js:464 | after unsetting a list of paths, anything under one of them is undefined, and a path untouched by all of them keeps its value |
| JsValues.UnsetAllAbsent | src/resources/Validator.js:464 | unsetting never makes an absent path present |
| JsValues.OmitLookup | src/resources/Validator.js:464 | `_.omit(data, omit)` removes every omitted path and keeps every path no omitted path touches |
| JsValues.ErrorText | src/resources/Validator.js:61-65 | the text of a thrown error starts with the error's name, when it has one, and ends with its message |
| JsValues.Truthy | src/resources/Validator.js:532 | exactly `undefined`, `null`, `false`, 0 and the empty string are falsy |
| JsValues.IsEmpty | src/resources/Validator.js:536 | lodash `_.isEmpty` is false only for a non-empty string, array or object; numbers and booleans are always empty |
| JsValues.ResolvePath | src/resources/Validator.js:464 | a path that is an own key of the object is that key alone; any other path is split into dot-free segments that join back to it |
| JsValues.Unset | src/resources/Validator.js:464 | unsetting a path never adds a key; a one-segment path removes exactly its key, and a longer one keeps every key and changes only the entry under its first segment |
| JsValues.UnsetAll | src/resources/Validator.js:464 | unsetting a list of paths never adds a key |
| JsValues.Omit | src/resources/Validator.js:464 | `_.omit` never adds a key, and removes every omitted path that is an own key of the data |
| JoiModel.SplitFirstPiece | src/resources/Validator.js:292-297 | the first piece of `split('.')` is the text up to the first '.' |
| JoiModel.StepRule | src/resources/Validator.js:291-299 | a step other than '' and 'any' makes the number an integer when it has no '.', and otherwise sets its precision to the length of the digits after the first '.' |
| JoiModel.StepIgnored | src/resources/Validator.js:291 | an absent, empty or 'any' step adds no step check |
| JoiModel.StepCheck | src/resources/Validator.js:291-299 | a step adds no rule exactly when it is absent, empty or 'any'; otherwise its rule is integer or a precision |
| JoiModel.TextSchema | src/resources/Validator.js:263-283 | a text field is a string validator, not required, in which '' counts as absent; with no `validate` it has no checks |
| JoiModel.NumberSchema | src/resources/Validator.js:287-307 | a number field is a number validator, not required, in which null counts as absent; it never has a regex check, and with no `validate` it has no checks |
| JoiModel.FieldSchema | src/resources/Validator.js:263-310 | number is the only field type with a number validator and null as absent; text, email and signature are strings with '' as absent, and email checks the email format |
| JoiModel.TextLimits | src/resources/Validator.js:263-283 | a text field gets a string validator in which the empty string counts as absent; a min or max length is checked exactly when it is a non-negative number |
| JoiModel.NumberLimits | src/resources/Validator.js:287-306 | a number field where null counts as absent checks min, max, greater and less exactly when each is a number, and is an integer exactly when the step says so |
| JoiModel.AddAllStops | src/resources/Validator.js:240-246 | an error while compiling one child stops the compilation of the remaining siblings |
| JoiModel.AddColumnsStops | src/resources/Validator.js:256-262 | an error in one column stops the remaining columns |
| JoiModel.AddRowsStops | src/resources/Validator.js:247-255 | an error in one table cell stops the remaining rows and cells |
| JoiModel.AddValidator | src/resources/Validator.js:207-369 | compiling a component never removes an entry of the enclosing schema, and an included keyed component of a non-layout type always gets its own entry |
| JoiModel.Base | src/resources/Validator.js:226-325 | the type switch leaves the validator null exactly for the layout types; no branch removes an entry, and grid, container and field types leave the enclosing schema as it was |
| JoiModel.LayoutChildren | src/resources/Validator.js:240-262 | compiling a layout's children into the enclosing schema never removes an entry |
| JoiModel.AddAll | src/resources/Validator.js:240-246 | compiling siblings never removes an existing entry |
| JoiModel.AddColumns | src/resources/Validator.js:256-262 | compiling columns never removes an existing entry |
| JoiModel.AddRows | src/resources/Validator.js:247-255 | compiling table rows never removes an existing entry |
| JoiModel.AttachRules | src/resources/Validator.js:328-356 | the rules leave the validator as it is unless they apply; they never fail on a validator and keep its type, and a null validator stays null |
| JoiModel.WrapMultiple | src/resources/Validator.js:357-362 | without `multiple` the validator is kept; with it, a validator becomes a sparse array of that validator allowing null, and a null one throws |
| JoiModel.UniquesAreFlagged | src/resources/Validator.js:209-219 | every component recorded as unique is flagged `unique` and not excluded by `include` |
| JoiModel.ChildUniquesAreFlagged | src/resources/Validator.js:226-325 | the unique components collected from a component's children are flagged and not excluded |
| JoiModel.UniquesAllAreFlagged | src/resources/Validator.js:240-246 | the unique components collected from a list of siblings are flagged and not excluded |
| JoiModel.UniquesColumnsAreFlagged | src/resources/Validator.js:256-262 | the unique components collected from columns are flagged and not excluded |
| JoiModel.UniquesRowsAreFlagged | src/resources/Validator.js:247-255 | the unique components collected from table rows are flagged and not excluded |
| JoiModel.ExcludedAddsNothing | src/resources/Validator.js:209-214 | a missing component, or one whose key `include` marks false, leaves the schema unchanged and is not recorded as unique |
| JoiModel.AttachRulesOnNull | src/resources/Validator.js:329-356 | on a type with no validator, the rules throw exactly when required, custom or json is set, and otherwise leave it null |
| JoiModel.LayoutIsTransparent | src/resources/Validator.js:240-262 | fieldset, panel, well, table and columns compile their children into the enclosing schema and add no entry of their own |
| JoiModel.ContainerNests | src/resources/Validator.js:234-239 | a keyed container, or a tree component of another type, gets an object entry of its children compiled into a fresh map; no other entry changes |
| JoiModel.GridNests | src/resources/Validator.js:227-233 | a keyed datagrid or editgrid gets an array-of-objects entry built from its children, keeping unknown keys; no other entry changes |
| JoiModel.OtherTypeFlattens | src/resources/Validator.js:311-324 | an unknown type without `tree` compiles its children into the enclosing schema and adds an any-value entry under its key |
| JoiModel.FieldAddsOwnEntry | src/resources/Validator.js:263-310 | a field type adds only its own entry (none without a key); without rules or `multiple`, that entry is the type's validator |
| JoiModel.MultipleWraps | src/resources/Validator.js:329-362 | `multiple` stores a sparse array, keeping unknown keys, whose items are the component's own validator with its rules attached, made to allow null; for a field type the items have the field's type |
| JoiModel.RulesAttachOnlyWhenApplicable | src/resources/Validator.js:329-356 | required, custom and json attach exactly as configured, and a pattern only when it compiles and the validator is a string; all of them only on a keyed, dot-free, persistent component with `validate`. The rules append exactly the configured checks, in the order pattern, custom, json, and nothing else; `required` also makes the validator treat no value as empty |
| JoiModel.PatternIgnoredOnNumbers | src/resources/Validator.js:336-343 | a keyed number field never gets a regex check, whatever its pattern |
| Visibility.VisibleIffKeyedChainShows | src/resources/Validator.js:445-451 | a component is visible exactly when each component of its parent chain, up to the first keyless one, passes its own check |
| Visibility.KeylessIsVisible | src/resources/Validator.js:445-451 | a component without a truthy key is visible |
| Visibility.HiddenAncestorHides | src/resources/Validator.js:445-451 | a hidden ancestor reached through keyed components hides a keyed descendant |
| Visibility.FailuresAreVisible | src/resources/Validator.js:383-438 | a conditional script that throws or returns no boolean, or a condition check that throws, counts as shown (fail-open) |
| Visibility.CustomConditionalShows | src/resources/Validator.js:383-409 | a custom conditional hides a component only when its script ran and set `show` to the boolean false |
| Visibility.OwnVisibility | src/resources/Validator.js:418-438 | a component without a `key` property shows; otherwise it is hidden only by a custom conditional that says false, or, without one, by a condition that evaluates to false |
| Visibility.IsVisible | src/resources/Validator.js:445-451 | a keyless component is visible; a visible keyed component passes its own check, and so does its keyed parent |
| Visibility.KeptWhenNotClearedOnHide | src/resources/Validator.js:456-457 | a component with `clearOnHide` false is always included |
| Visibility.Included | src/resources/Validator.js:455-457 | a keyless component is always included; an excluded one is cleared on hide and keyed |
| Visibility.IncludeAll | src/resources/Validator.js:455-457 | after the walk, `include` keeps every earlier key and has an entry for every visited component's key |
| Visibility.OmittedPaths | src/resources/Validator.js:458-460 | the omit list has at most one path per visited component |
| Visibility.IncludeOfLastVisit | src/resources/Validator.js:455-461 | the include entry of a key is the verdict of the last visited component with that key |
| Visibility.IncludeUntouched | src/resources/Validator.js:455-461 | keys of components not visited keep their previous include entry, or stay absent |
| Visibility.OmittedPathsExactly | src/resources/Validator.js:458-460 | a path is in the omit list exactly when some visit with that path is not included |
| CustomRules.FirstRejected | src/resources/Validator.js:31-71 | the first verdict that is not `true`, if any |
| CustomRules.Evaluated | src/resources/Validator.js:31-71 | the rows evaluated: all of them when every verdict is true, otherwise up to and including the first rejection |
| CustomRules.Outcome | src/resources/Validator.js:67-73 | the rule passes, with the value unchanged, exactly when every verdict is `true`; otherwise it fails with the rule's code and the first rejected verdict |
| CustomRules.Rows | src/resources/Validator.js:27-29 | a parent that is not an array is the single row; an array parent's rows are its entries |
| CustomRules.InputOf | src/resources/Validator.js:45 | the script's `input` is the row itself unless the row is object-typed, where it is the component's value read from the row |
| CustomRules.CustomVerdict | src/resources/Validator.js:36-65 | a row's verdict is the `valid` its script left, or, when the script throws, the error's text, which never passes |
| CustomRules.CustomRule | src/resources/Validator.js:21-74 | the method's result is the outcome of the row verdicts, and the component's script after it is the substitution applied once per evaluated row |
| CustomRules.CustomThrowFails | src/resources/Validator.js:32-70 | a script that throws on a row after all earlier rows passed fails the rule with the error's text (fail-closed), whatever later rows hold, after that many substitutions |
| CustomRules.CustomNoRows | src/resources/Validator.js:27-73 | an empty array parent passes the rule and leaves the script as it was |
| CustomRules.JsonVerdict | src/resources/Validator.js:96-104 | a row's verdict is the logic's result, or, when the evaluator throws, the error's message, which never passes |
| CustomRules.JsonRule | src/resources/Validator.js:82-113 | the method's result is the outcome of the json verdicts of the rows |
| CustomRules.JsonThrowFails | src/resources/Validator.js:96-109 | an evaluator error on a row after passing rows fails the rule with the error message |
| CustomRules.TruthyIsNotEnough | src/resources/Validator.js:93-109 | the first row whose logic result is anything but the boolean `true`, a truthy value included, fails the rule with that result |
| Uniqueness.EmptyRegistry | src/resources/Validator.js:189-195 | the registry starts empty and well formed |
| Uniqueness.Register | src/resources/Validator.js:217-219 | registering sets the key's component (the later one wins) and appends the key at its first registration only |
| Uniqueness.RegisterAll | src/resources/Validator.js:217-219 | registering in sequence keeps the registry well formed: keys are distinct, and order and entries agree |
| Uniqueness.RegisterAllLast | src/resources/Validator.js:217-219 | the entry of a key is the last registered component with that key |
| Uniqueness.RegisterAllKeeps | src/resources/Validator.js:217-219 | keys not registered keep their entry or stay absent |
| Uniqueness.RegisterAllExtends | src/resources/Validator.js:515 | further registrations only extend the key order, so keys stay in first-insertion order |
| Uniqueness.CheckedValues | src/resources/Validator.js:531-539 | a unique value is checked exactly when it is a non-empty string, array or object |
| Uniqueness.Skipped | src/resources/Validator.js:531-539 | absent, null, numeric and boolean values are never checked, and a string is checked exactly when it is non-empty |
| Uniqueness.IsPlace | src/resources/Validator.js:547-551 | a place object is never skipped |
| Uniqueness.UniqueQuery | src/resources/Validator.js:542-563 | a query always names the form and non-deleted submissions; a string needs a whole value match, a place its `place_id`, and an array all of its items; nothing else is added |
| Uniqueness.KeyStep | src/resources/Validator.js:525-583 | a skipped value leaves the run as it was; a checked one issues exactly one query, and its conflict message is the component's label followed by " must be unique." |
| Uniqueness.RunKeys | src/resources/Validator.js:525-585 | the keys issue at most one query each |
| Uniqueness.RunKeysStops | src/resources/Validator.js:525-585 | once a key conflicts or its lookup fails, the remaining keys are not looked at |
| Uniqueness.CheckUniques | src/resources/Validator.js:525-585 | the loop's outcome and the queries it issues are those of the key-by-key specification over the registry's key order |
| Uniqueness.IssuedQueriesAreScoped | src/resources/Validator.js:542-563 | at most one query per key is issued, each one scoped to the form and to non-deleted submissions |
| Uniqueness.AllUniqueIff | src/resources/Validator.js:525-585 | the check passes exactly when each key is skipped, unmatched, or matched only by the submission itself |
| Uniqueness.ConflictNamesComponent | src/resources/Validator.js:574-576 | a conflict comes from a checked key whose query matched another submission, and the message is that component's label followed by " must be unique." |
| Uniqueness.SkippedKeyIssuesNothing | src/resources/Validator.js:531-539 | a key with an empty value issues no query and changes nothing |
| Uniqueness.OwnMatchPasses | src/resources/Validator.js:567-579 | a match on the submission being updated is not a conflict, and costs exactly one query |
| FormValidator.PathOfLastVisit | src/resources/Validator.js:518-523 | a key has a path exactly when some visited component has that key, and the path is that of the last such visit |
| FormValidator.BuiltSchema | src/resources/Validator.js:473-487 | a compiled schema is an object schema, not required, with an `_id` entry, and building fails exactly when compiling the components does |
| FormValidator.PathsOf | src/resources/Validator.js:518-523 | the path map holds at most one path per visited component |
| FormValidator.Submission.constructor | src/resources/Validator.js:498-506 | a submission holds its data (possibly absent), its id and its form |
| FormValidator.Validator.constructor | src/resources/Validator.js:189-195 | a new validator has empty `include`, an empty unique registry and no schema |
| FormValidator.Validator.AddValidator | src/resources/Validator.js:207-369 | the in-place compiler returns what the recursive `addValidator` model computes and, on success, registers exactly that component's unique components in tree order |
| FormValidator.Validator.Base | src/resources/Validator.js:226-325 | the type switch returns what the model computes and registers the unique components of the children it compiles |
| FormValidator.Validator.LayoutChildren | src/resources/Validator.js:240-262 | a layout component's rows, columns or children are compiled as the model says, with their unique components registered |
| FormValidator.Validator.AddAll | src/resources/Validator.js:240-246 | the `forEach` over children agrees with the model and registers their unique components in order |
| FormValidator.Validator.AddColumns | src/resources/Validator.js:256-262 | the loop over columns agrees with the model and registers their unique components |
| FormValidator.Validator.AddRows | src/resources/Validator.js:247-255 | the loop over rows and cells agrees with the model and registers their unique components |
| FormValidator.Validator.Sanitize | src/resources/Validator.js:377-465 | after the walk, `include` holds each visited key's verdict, and the submission data is the old data with the omitted paths removed |
| FormValidator.Validator.BuildSchema | src/resources/Validator.js:473-487 | the stored schema is the compiled object schema with `_id`, and a failed build leaves the stored schema unchanged |
| FormValidator.Validator.PathMap | src/resources/Validator.js:518-523 | the key-to-path map is the one the walk specifies |
| FormValidator.Validator.Validate | src/resources/Validator.js:498-597 | no data skips validation and changes nothing; otherwise the data is sanitized, the schema built (a failed build keeps the old schema), the unique keys checked, and the Joi result decides, with the final data being the sanitized or validated value |
| RoleAction.Resolve | src/actions/RoleAction.js:146-199 | the action proceeds only with a valid association and type; it crashes only for `new` without a resource |
| RoleAction.Member | src/actions/RoleAction.js:154 | reading a property throws exactly on undefined and null; otherwise it gives the object's own property, or undefined |
| RoleAction.AssociationCheckedFirst | src/actions/RoleAction.js:146-148 | an association other than 'existing' or 'new' is rejected before anything else |
| RoleAction.TypeCheckedSecond | src/actions/RoleAction.js:150-152 | with a valid association, a type other than 'add' or 'remove' is rejected next |
| RoleAction.ExistingSelection | src/actions/RoleAction.js:158-195 | for 'existing', a missing role and then a missing submission are rejected; otherwise the submission reference, and the configured role or else the data's role, are used |
| RoleAction.NewSelection | src/actions/RoleAction.js:154-199 | for 'new' with any resource on the response, a falsy `item` with a configured role is rejected; otherwise the resource's `item` and the configured role are used |
| RoleAction.NewWithoutResourceCrashes | src/actions/RoleAction.js:154-197 | for 'new' with no resource on the response, selection dereferences undefined |
| RoleAction.DisableDefaultAction | src/actions/RoleAction.js:28 | reading the association throws exactly when it is undefined or null; a string disables the default action exactly when it is 'existing'; numbers, booleans, objects and arrays of other than one entry never do |
| RoleAction.DisableAgreesForStrings | src/actions/RoleAction.js:28 | for a string association, the default action is disabled exactly when it is 'existing' |
| RoleAction.ArrayAssociationDisagrees | src/actions/RoleAction.js:28 | the association `['existing']` disables the default action yet is rejected by resolve |
| RoleAction.ReadsAsExisting | src/actions/RoleAction.js:28 | only a string or a one-entry array can read as 'existing', and a string does exactly when it is 'existing' |
| RoleAction.Texts | src/actions/RoleAction.js:283-288 | the compare list holds the string forms of exactly the truthy role entries; one entry gives its text, or nothing when it is falsy |
| RoleAction.TextsConcat | src/actions/RoleAction.js:283-288 | the compare list keeps the entries' order and repeats: the texts of two joined lists are their texts joined |
| RoleAction.Ids | src/actions/RoleAction.js:299-302 | each text becomes an id entry in the same order, and reading the entries back gives the texts again |
| RoleAction.Dedup | src/actions/RoleAction.js:298 | `_.uniq` leaves no duplicates and keeps the same elements |
| RoleAction.Pull | src/actions/RoleAction.js:337 | `_.pull` removes exactly the given role |
| RoleAction.DedupKeepsOrder | src/actions/RoleAction.js:298 | `_.uniq` keeps elements in the order of their first occurrence |
| RoleAction.DedupAppendNew | src/actions/RoleAction.js:297-298 | deduplicating after appending a new role is deduplicating and then appending it |
| RoleAction.DedupOfDistinct | src/actions/RoleAction.js:298 | `_.uniq` of a list without duplicates is the list itself |
| RoleAction.PullConcat | src/actions/RoleAction.js:337 | `_.pull` distributes over concatenation |
| RoleAction.Resource.constructor | src/actions/RoleAction.js:278-282 | a resource holds the roles it is given |
| RoleAction.Resource.Compare | src/actions/RoleAction.js:283-288 | the compare loop builds the string forms of the truthy entries |
| RoleAction.Resource.AddRole | src/actions/RoleAction.js:278-307 | the resource is saved exactly when the role is not present yet; then its roles become the deduplicated compare list with the role appended, and otherwise they are unchanged |
| RoleAction.Resource.RemoveRole | src/actions/RoleAction.js:318-346 | the resource is saved exactly when the role is present; then its roles become the deduplicated compare list without the role, and otherwise they are unchanged |
| RoleAction.AddedRoleOnceAndLast | src/actions/RoleAction.js:296-302 | after adding, the role appears once, at the end, and the others are the previous truthy roles without duplicates |
| RoleAction.RemovedRoleGone | src/actions/RoleAction.js:337-341 | after removing, the role is absent, no role repeats, the other roles are kept, and their order is kept |

## Left out

- `addValidator` receives the schema map and returns the extended one. The source mutates the caller's object in place; the result is the same map.
- The `componentData` argument of `addValidator` (`_.get(componentData, key)`) is dropped, because no branch reads it.
- `util.eachComponent`, `util.checkCondition`, `util.isBoolean`/`util.boolean` and `util.escapeRegExp` are not part of this model. The walk is given as its sequence of visits (one walk for sanitize, one for the paths), and the rest are oracle functions.
- The Joi library is an oracle (`joi`). `JoiX`'s custom types are described by schema values, not executed.
- The node `vm` sandbox, the 100 ms budget of a custom rule script and the 250 ms budget of a conditional script and the `{{ }}` interpolation are oracles (`Host.run`, `Host.subst`). A timeout shows up as a thrown error.
- The JSON Logic evaluator is an oracle (`Host.applyLogic`).
- Regex validity is an oracle (`regexCompiles`). Email syntax and regex matching are not modelled.
- The `{{ }}` substitution is opaque. The model tracks how many times it is applied, not what it produces.
- Converting ids to BSON is not modelled. The form id is given as a string and ObjectId conversion (`mongoose.Types.ObjectId`) is left out; role ids stay strings.
- Database and HTTP work is not modelled: `findOne`, `loadUser`/`findById`, `updateModel`, saving, and the Express `next` callback. Lookups are the oracle `find`.
- Lodash bracket paths and array indexes inside paths are not modelled: paths split on '.' only. `_.keys` ordering of integer-like keys is not modelled either; keys keep insertion order.
- NaN, Infinity and JavaScript number formatting are not modelled: numbers are `real`.
- `JoiModel.TextLimits`: a non-integer length passes the `>= 0` test and is stored as a check, while Joi would throw on it; that throw is not modelled.
- `JoiModel.StepRule`: the step is a string or absent. A truthy non-string step, where `split` throws in the source, is not modelled.
- Missing `components`, `columns` or `rows` arrays are modelled as empty. In the source the grid, container and layout cases throw a TypeError on them; only the default case checks `Array.isArray` first.
- `FormValidator.Validator.Validate`: when the schema build fails, the contract does not say what `unique` holds. The source has by then registered the unique components it reached (src/resources/Validator.js:217-219) before the throw in src/resources/Validator.js:329-362, and the model does not describe that partial registry. `FormValidator.Validator.BuildSchema` and the compile methods leave it unspecified in the same way.
- `FormValidator.Validator.BuildSchema` requires submission data to be present, because the only caller runs it after sanitize has set the data.
- The submission `_id` is a string or absent. A non-string `_id` is not modelled.
- Truthy non-object `submission.data`: the data is either absent or a map.
- `RoleAction.Resolve`: the request's submission data is always a map. A request without `req.submission.data` is not modelled; for the 'existing' association the source throws on it at src/actions/RoleAction.js:158 (when no role is configured) or :161. The response's resource is any value, or absent. Settings read from non-object values are not modelled.
- `RoleAction.Resource.AddRole` and `RoleAction.Resource.RemoveRole`: `submission.roles` is always a list. When it is missing the source throws; that is not modelled.
- RoleAction's settings form, its role lookup and the email action are not part of this model.
- The sandbox's `scope` global is not modelled.
- A layout type with required, custom, json or `multiple` set makes the source throw on its null validator. This is modelled as the `NullValidator` build error.

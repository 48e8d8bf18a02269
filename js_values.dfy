/**
 * JavaScript values as the validator and the role action see them: the JSON-like
 * submission data, JavaScript truthiness, lodash's `_.isEmpty`, `String.prototype.split`
 * on one character, and lodash's path access (`_.get`, `_.omit`) over nested objects.
 */
module JsValues {

  datatype Option<+T> = None | Some(value: T)

  datatype Result<+T, +E> = Ok(value: T) | Err(error: E) {
    predicate IsFailure() { Err? }
    function PropagateFailure<U>(): Result<U, E>
      requires Err?
    {
      Err(error)
    }
    function Extract(): T
      requires Ok?
    {
      value
    }
  }

  /** A JSON value; `Undefined` stands for a missing property. NaN and the infinities are not represented. */
  datatype Value =
    | Undefined
    | Null
    | Bool(b: bool)
    | Num(n: real)
    | Str(s: string)
    | Arr(items: seq<Value>)
    | Obj(fields: map<string, Value>)

  /** An exception thrown by a script or by a library: its `name` and `message`. */
  datatype Thrown = Thrown(name: string, message: string)

  /** `Error.prototype.toString()`. */
  function ErrorText(e: Thrown): (text: string)
    ensures |e.message| <= |text| && text[|text| - |e.message|..] == e.message
    ensures e.name != "" ==> |e.name| <= |text| && text[..|e.name|] == e.name
  {
    if e.name == "" then e.message
    else if e.message == "" then e.name
    else e.name + ": " + e.message
  }

  /** JavaScript truthiness. */
  predicate Truthy(v: Value)
    ensures !Truthy(v) <==> v in {Undefined, Null, Bool(false), Num(0.0), Str("")}
  {
    match v
    case Undefined => false
    case Null => false
    case Bool(b) => b
    case Num(n) => n != 0.0
    case Str(s) => s != ""
    case _ => true
  }

  /** lodash `_.isEmpty`: strings and arrays by length, objects by own keys, every other value is empty. */
  predicate IsEmpty(v: Value)
    ensures !IsEmpty(v) ==> (v.Str? && v.s != "") || (v.Arr? && v.items != []) || (v.Obj? && v.fields != map[])
    ensures v.Num? || v.Bool? ==> IsEmpty(v)
  {
    match v
    case Str(s) => |s| == 0
    case Arr(items) => |items| == 0
    case Obj(fields) => |fields| == 0
    case _ => true
  }

  /** The property of an object, `Undefined` when it has none. */
  function Field(v: Value, name: string): Value
  {
    if v.Obj? && name in v.fields then v.fields[name] else Undefined
  }

  // ---------------------------------------------------------------------------
  // String.prototype.split on a one-character separator, and its inverse
  // ---------------------------------------------------------------------------

  /** The index of the first occurrence of `c` in `s`. */
  function FirstIndex(s: string, c: char): (i: nat)
    requires c in s
    ensures i < |s| && s[i] == c && c !in s[..i]
  {
    if s[0] == c then 0 else 1 + FirstIndex(s[1..], c)
  }

  /** `s.split(sep)`: the pieces between occurrences of `sep`; there is always at least one. */
  function Split(s: string, sep: char): (parts: seq<string>)
    ensures |parts| >= 1
    decreases |s|
  {
    if sep !in s then [s]
    else
      var i := FirstIndex(s, sep);
      [s[..i]] + Split(s[i + 1..], sep)
  }

  /** `parts.join(sep)`. */
  function Join(parts: seq<string>, sep: char): string
    requires |parts| >= 1
  {
    if |parts| == 1 then parts[0] else parts[0] + [sep] + Join(parts[1..], sep)
  }

  /** Joining the pieces of a split gives back the string, and no piece holds the separator. */
  lemma {:induction false} SplitJoin(s: string, sep: char)
    ensures Join(Split(s, sep), sep) == s
    ensures forall k :: 0 <= k < |Split(s, sep)| ==> sep !in Split(s, sep)[k]
    decreases |s|
  {
    if sep in s {
      var i := FirstIndex(s, sep);
      SplitJoin(s[i + 1..], sep);
      assert s == s[..i] + [sep] + s[i + 1..];
    }
  }

  /** The string splits into one piece exactly when it does not hold the separator. */
  lemma {:induction false} SplitSingle(s: string, sep: char)
    ensures |Split(s, sep)| == 1 <==> sep !in s
  {
  }

  // ---------------------------------------------------------------------------
  // lodash path access
  // ---------------------------------------------------------------------------

  /**
   * lodash `castPath` for a string path against an object: a path that names an own key
   * of the object is that one key, any other path is split at each '.'.
   */
  function ResolvePath(obj: map<string, Value>, p: string): (segs: seq<string>)
    ensures |segs| >= 1
    ensures p in obj ==> segs == [p]
    ensures p !in obj ==> Join(segs, '.') == p && forall k :: 0 <= k < |segs| ==> '.' !in segs[k]
  {
    if p in obj then [p]
    else
      SplitJoin(p, '.');
      Split(p, '.')
  }

  /** lodash `baseGet` along a resolved path; only objects are walked into. */
  function Lookup(v: Value, path: seq<string>): Value
    decreases |path|
  {
    if path == [] then v
    else if v.Obj? && path[0] in v.fields then Lookup(v.fields[path[0]], path[1..])
    else Undefined
  }

  /** lodash `_.get(obj, p)` for a string path. */
  function Get(obj: map<string, Value>, p: string): Value
  {
    Lookup(Obj(obj), ResolvePath(obj, p))
  }

  predicate IsPrefix(p: seq<string>, q: seq<string>)
  {
    |p| <= |q| && q[..|p|] == p
  }

  /** lodash `baseUnset`: delete the last key of `path` from the object its other keys lead to, if there is one. */
  function Unset(m: map<string, Value>, path: seq<string>): (r: map<string, Value>)
    requires |path| >= 1
    ensures r.Keys <= m.Keys
    ensures |path| == 1 ==> r.Keys == m.Keys - {path[0]}
    ensures |path| > 1 ==> r.Keys == m.Keys
    ensures forall k :: k in r && k != path[0] ==> r[k] == m[k]
    decreases |path|
  {
    if |path| == 1 then m - {path[0]}
    else if path[0] in m && m[path[0]].Obj? then m[path[0] := Obj(Unset(m[path[0]].fields, path[1..]))]
    else m
  }

  /** Unsetting a path removes everything at or below it and changes nothing beside it. */
  lemma {:induction false} UnsetLookup(m: map<string, Value>, p: seq<string>, q: seq<string>)
    requires |p| >= 1
    ensures IsPrefix(p, q) ==> Lookup(Obj(Unset(m, p)), q) == Undefined
    ensures !IsPrefix(p, q) && !IsPrefix(q, p) ==> Lookup(Obj(Unset(m, p)), q) == Lookup(Obj(m), q)
    decreases |p|
  {
    if |q| == 0 {
      assert IsPrefix(q, p);
    } else if |p| == 1 {
      if !IsPrefix(p, q) {
        assert q[0] != p[0];
      }
    } else if q[0] != p[0] {
      assert !IsPrefix(p, q) && !IsPrefix(q, p);
    } else if p[0] in m && m[p[0]].Obj? {
      UnsetLookup(m[p[0]].fields, p[1..], q[1..]);
      assert IsPrefix(p, q) ==> IsPrefix(p[1..], q[1..]);
      assert IsPrefix(p[1..], q[1..]) ==> IsPrefix(p, q);
      assert IsPrefix(q[1..], p[1..]) ==> IsPrefix(q, p);
    }
  }

  /** Unsetting never brings back a value that was absent. */
  lemma {:induction false} UnsetKeepsAbsent(m: map<string, Value>, p: seq<string>, q: seq<string>)
    requires |p| >= 1
    requires Lookup(Obj(m), q) == Undefined
    ensures Lookup(Obj(Unset(m, p)), q) == Undefined
    decreases |p|
  {
    if |q| > 0 && |p| > 1 && q[0] == p[0] && p[0] in m && m[p[0]].Obj? {
      UnsetKeepsAbsent(m[p[0]].fields, p[1..], q[1..]);
    }
  }

  /** Unset every path of `paths`, first to last. */
  function UnsetAll(m: map<string, Value>, paths: seq<seq<string>>): (r: map<string, Value>)
    requires forall k :: 0 <= k < |paths| ==> |paths[k]| >= 1
    ensures r.Keys <= m.Keys
    decreases |paths|
  {
    if paths == [] then m
    else UnsetAll(Unset(m, paths[0]), paths[1..])
  }

  /** Each string path resolved against the original object, as `_.omit` does before it deletes. */
  function ResolveAll(obj: map<string, Value>, paths: seq<string>): (r: seq<seq<string>>)
    ensures |r| == |paths|
    ensures forall k :: 0 <= k < |r| ==> r[k] == ResolvePath(obj, paths[k])
  {
    if paths == [] then [] else [ResolvePath(obj, paths[0])] + ResolveAll(obj, paths[1..])
  }

  /** lodash `_.omit(obj, paths)`: a copy of `obj` without the values at `paths`. */
  function Omit(obj: map<string, Value>, paths: seq<string>): (r: map<string, Value>)
    ensures r.Keys <= obj.Keys
    ensures forall k :: 0 <= k < |paths| && paths[k] in obj ==> paths[k] !in r
  {
    UnsetAllRemovesOwnKeys(obj, paths);
    UnsetAll(obj, ResolveAll(obj, paths))
  }

  /** A one-key path among those unset removes that key, and no later unset brings it back. */
  lemma {:induction false} UnsetAllRemoves(m: map<string, Value>, paths: seq<seq<string>>, j: nat, key: string)
    requires forall k :: 0 <= k < |paths| ==> |paths[k]| >= 1
    requires j < |paths| && paths[j] == [key]
    ensures key !in UnsetAll(m, paths)
    decreases |paths|
  {
    if j > 0 {
      UnsetAllRemoves(Unset(m, paths[0]), paths[1..], j - 1, key);
    }
  }

  /** A path that is an own key of the object is removed from the top level. */
  lemma UnsetAllRemovesOwnKeys(obj: map<string, Value>, paths: seq<string>)
    ensures forall k :: 0 <= k < |paths| && paths[k] in obj ==> paths[k] !in UnsetAll(obj, ResolveAll(obj, paths))
  {
    var rs := ResolveAll(obj, paths);
    forall k | 0 <= k < |paths| && paths[k] in obj
      ensures paths[k] !in UnsetAll(obj, rs)
    {
      UnsetAllRemoves(obj, rs, k, paths[k]);
    }
  }

  predicate Untouched(paths: seq<seq<string>>, q: seq<string>)
  {
    forall k :: 0 <= k < |paths| ==> !IsPrefix(paths[k], q) && !IsPrefix(q, paths[k])
  }

  /** After unsetting a list of paths, each of them is absent and every unrelated path reads as before. */
  lemma {:induction false} UnsetAllLookup(m: map<string, Value>, paths: seq<seq<string>>, q: seq<string>)
    requires forall k :: 0 <= k < |paths| ==> |paths[k]| >= 1
    ensures (exists k :: 0 <= k < |paths| && IsPrefix(paths[k], q)) ==> Lookup(Obj(UnsetAll(m, paths)), q) == Undefined
    ensures Untouched(paths, q) ==> Lookup(Obj(UnsetAll(m, paths)), q) == Lookup(Obj(m), q)
    decreases |paths|
  {
    if paths != [] {
      var m' := Unset(m, paths[0]);
      UnsetLookup(m, paths[0], q);
      UnsetAllLookup(m', paths[1..], q);
      if IsPrefix(paths[0], q) {
        UnsetAllAbsent(m', paths[1..], q);
      }
    }
  }

  lemma {:induction false} UnsetAllAbsent(m: map<string, Value>, paths: seq<seq<string>>, q: seq<string>)
    requires forall k :: 0 <= k < |paths| ==> |paths[k]| >= 1
    requires Lookup(Obj(m), q) == Undefined
    ensures Lookup(Obj(UnsetAll(m, paths)), q) == Undefined
    decreases |paths|
  {
    if paths != [] {
      UnsetKeepsAbsent(m, paths[0], q);
      UnsetAllAbsent(Unset(m, paths[0]), paths[1..], q);
    }
  }

  /** `_.omit`: every omitted path reads as absent afterwards; every path unrelated to all of them is unchanged. */
  lemma OmitLookup(obj: map<string, Value>, paths: seq<string>, q: seq<string>)
    ensures forall k :: 0 <= k < |paths| ==> Lookup(Obj(Omit(obj, paths)), ResolvePath(obj, paths[k])) == Undefined
    ensures Untouched(ResolveAll(obj, paths), q) ==> Lookup(Obj(Omit(obj, paths)), q) == Lookup(Obj(obj), q)
  {
    var rs := ResolveAll(obj, paths);
    forall k | 0 <= k < |paths|
      ensures Lookup(Obj(Omit(obj, paths)), ResolvePath(obj, paths[k])) == Undefined
    {
      var p := rs[k];
      assert IsPrefix(rs[k], p);
      UnsetAllLookup(obj, rs, p);
    }
    UnsetAllLookup(obj, rs, q);
  }
}

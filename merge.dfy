/** The merge family: the shallow merge of two objects, the merge into an
    object reached by a list of keys, the recursive deep merge, and the three
    "smart patch" entry points built on them. */
module Merge {
  import opened Json
  import opened Depth
  import opened Path
  import opened Search

  // ---------------------------------------------------------------------
  // Shallow merge

  /** `jsonb_merge_shallow` on two present arguments. The source must pass
      the depth guard, then the target and the source must both be objects;
      the result has the keys of both, the source value wins on a shared key,
      and a key only in the target keeps its value. */
  function ShallowMerged(target: Value, source: Value): (r: Result<Value>)
    ensures r.Ok? <==> MaxDepth(source) <= MAX_JSONB_DEPTH && target.Obj? && source.Obj?
    ensures r.Err? ==> r.error == (if MaxDepth(source) > MAX_JSONB_DEPTH then DepthExceeded
                                   else if !target.Obj? then TargetNotObject
                                   else SourceNotObject)
    ensures r.Ok? ==>
      && r.value.Obj?
      && r.value.fields.Keys == target.fields.Keys + source.fields.Keys
      && (forall k | k in source.fields :: r.value.fields[k] == source.fields[k])
      && (forall k | k in target.fields && k !in source.fields :: r.value.fields[k] == target.fields[k])
  {
    ValidateDepthIff(source, MAX_JSONB_DEPTH);
    if ValidateDepth(source, MAX_JSONB_DEPTH).Some? then Err(DepthExceeded)
    else if !target.Obj? then Err(TargetNotObject)
    else if !source.Obj? then Err(SourceNotObject)
    else Ok(Obj(Overlay(target.fields, source.fields)))
  }

  /** `jsonb_merge_shallow`: a missing (SQL NULL) argument gives a missing
      result; otherwise the guarded merge, built by inserting the source
      entries into a copy of the target one at a time. */
  method MergeShallow(target: Option<Value>, source: Option<Value>) returns (r: Result<Option<Value>>)
    ensures target.None? || source.None? ==> r == Ok(None)
    ensures target.Some? && source.Some? ==>
      match ShallowMerged(target.value, source.value)
      case Ok(v) => r == Ok(Some(v))
      case Err(e) => r == Err(e)
  {
    if target.None? || source.None? {
      return Ok(None);
    }
    var t := target.value;
    var s := source.value;
    if ValidateDepth(s, MAX_JSONB_DEPTH).Some? {
      return Err(DepthExceeded);
    }
    if !t.Obj? {
      return Err(TargetNotObject);
    }
    if !s.Obj? {
      return Err(SourceNotObject);
    }
    var merged := InsertAll(t.fields, s.fields);
    r := Ok(Some(Obj(merged)));
  }

  /** `jsonb_smart_patch_scalar`: the shallow merge of two present values,
      which never comes back missing. */
  method SmartPatchScalar(target: Value, source: Value) returns (r: Result<Value>)
    ensures r == ShallowMerged(target, source)
  {
    var m := MergeShallow(Some(target), Some(source));
    match m {
      case Ok(v) =>
        r := Ok(v.value);
      case Err(e) =>
        r := Err(e);
    }
  }

  // ---------------------------------------------------------------------
  // Merge at a key path

  /** The key path as path segments, for stating results with `Navigate`. */
  function KeyPath(keys: seq<string>): (r: seq<Segment>)
    ensures |r| == |keys|
    ensures forall i | 0 <= i < |keys| :: r[i] == Key(keys[i])
  {
    if keys == [] then [] else [Key(keys[0])] + KeyPath(keys[1..])
  }

  /** The walk of `jsonb_merge_at_path` below the root, from node `v` along
      a non-empty key path: a node that is not an object fails; a missing key
      is created holding {}; at the last key the value found must be an
      object, and the source entries are inserted into it. */
  function MergeUnder(v: Value, path: seq<string>, s: map<string, Value>): (r: Result<Value>)
    requires path != []
    ensures r.Ok? ==>
      && v.Obj? && r.value.Obj?
      && r.value.fields.Keys == v.fields.Keys + {path[0]}
      && (forall k | k in v.fields && k != path[0] :: r.value.fields[k] == v.fields[k])
    decreases |path|
  {
    if !v.Obj? then Err(PathNotObject)
    else
      var k := path[0];
      var child := if k in v.fields then v.fields[k] else Obj(map[]);
      if |path| == 1 then
        if child.Obj? then Ok(Obj(v.fields[k := Obj(Overlay(child.fields, s))]))
        else Err(MergeTargetNotObject)
      else
        match MergeUnder(child, path[1..], s)
        case Ok(c) => Ok(Obj(v.fields[k := c]))
        case Err(e) => Err(e)
  }

  /** `jsonb_merge_at_path` (and `jsonb_smart_patch_nested`, which only
      forwards to it): the source must be an object; an empty path merges at
      the root, which must then be an object. */
  function MergedAtPath(target: Value, source: Value, path: seq<string>): (r: Result<Value>)
    ensures !source.Obj? ==> r == Err(SourceNotObject)
    ensures r.Ok? ==> target.Obj? && r.value.Obj? && target.fields.Keys <= r.value.fields.Keys
  {
    if !source.Obj? then Err(SourceNotObject)
    else if path == [] then
      if target.Obj? then Ok(Obj(Overlay(target.fields, source.fields))) else Err(TargetNotObject)
    else MergeUnder(target, path, source.fields)
  }

  /** A result rebuilt around the frames of a walk, errors passing through. */
  function PlugResult(frames: seq<Frame>, r: Result<Value>): Result<Value>
  {
    match r
    case Ok(v) => Ok(Plug(frames, v))
    case Err(e) => Err(e)
  }

  /** `jsonb_merge_at_path` as the source runs it: a cursor descends through
      the keys before the last, creating {} where a key is missing, and the
      source entries are then inserted one by one into the object under the
      last key. */
  method MergeAtPath(target: Value, source: Value, path: seq<string>) returns (r: Result<Value>)
    ensures r == MergedAtPath(target, source, path)
  {
    if !source.Obj? {
      return Err(SourceNotObject);
    }
    if path == [] {
      if !target.Obj? {
        return Err(TargetNotObject);
      }
      var merged := InsertAll(target.fields, source.fields);
      return Ok(Obj(merged));
    }
    var frames: seq<Frame> := [];
    var current := target;
    var i := 0;
    while i < |path| - 1
      invariant 0 <= i <= |path| - 1
      invariant PlugResult(frames, MergeUnder(current, path[i..], source.fields)) == MergeUnder(target, path, source.fields)
      decreases |path| - 1 - i
    {
      if !current.Obj? {
        return Err(PathNotObject);
      }
      var k := path[i];
      var child := if k in current.fields then current.fields[k] else Obj(map[]);
      assert path[i..][0] == k && path[i..][1..] == path[i + 1..];
      var below := MergeUnder(child, path[i + 1..], source.fields);
      if below.Ok? {
        PlugPush(frames, InObj(current.fields, k), below.value);
      }
      frames := frames + [InObj(current.fields, k)];
      current := child;
      i := i + 1;
    }
    assert path[i..] == [path[i]];
    if !current.Obj? {
      return Err(PathNotObject);
    }
    var k := path[i];
    var child := if k in current.fields then current.fields[k] else Obj(map[]);
    if !child.Obj? {
      return Err(MergeTargetNotObject);
    }
    var merged := InsertAll(child.fields, source.fields);
    r := Ok(Plug(frames, Obj(current.fields[k := Obj(merged)])));
  }

  /** Every node that already exists along the key path, the last one
      included, is an object. */
  predicate ObjectsAlong(v: Value, path: seq<string>)
    decreases |path|
  {
    v.Obj? && (path == [] || path[0] !in v.fields || ObjectsAlong(v.fields[path[0]], path[1..]))
  }

  /** Below a missing key every node is created, so the walk cannot fail. */
  lemma {:induction false} MergeUnderEmptySucceeds(path: seq<string>, s: map<string, Value>)
    requires path != []
    ensures MergeUnder(Obj(map[]), path, s).Ok?
    decreases |path|
  {
    if |path| > 1 {
      MergeUnderEmptySucceeds(path[1..], s);
    }
  }

  lemma {:induction false} MergeUnderSucceedsIff(v: Value, path: seq<string>, s: map<string, Value>)
    requires path != []
    ensures MergeUnder(v, path, s).Ok? <==> ObjectsAlong(v, path)
    decreases |path|
  {
    if v.Obj? && |path| > 1 {
      if path[0] in v.fields {
        MergeUnderSucceedsIff(v.fields[path[0]], path[1..], s);
      } else {
        MergeUnderEmptySucceeds(path[1..], s);
      }
    }
  }

  /** The merge at a path fails exactly when the source is not an object or
      an existing node along the path is not an object; missing keys never
      make it fail. */
  lemma MergeAtPathSucceedsIff(target: Value, source: Value, path: seq<string>)
    ensures MergedAtPath(target, source, path).Ok? <==> source.Obj? && ObjectsAlong(target, path)
    ensures MergedAtPath(target, source, path) == Err(SourceNotObject) <==> !source.Obj?
  {
    if source.Obj? && path != [] {
      MergeUnderSucceedsIff(target, path, source.fields);
    }
  }

  /** The fields of the object found at a key path, or none when the path
      leads nowhere. */
  function FieldsAt(v: Value, path: seq<string>): map<string, Value>
  {
    match Navigate(v, KeyPath(path))
    case Some(x) => FieldsOf(x)
    case None => map[]
  }

  lemma {:induction false} NavigateAfterMergeUnder(v: Value, path: seq<string>, s: map<string, Value>)
    requires path != [] && MergeUnder(v, path, s).Ok?
    ensures Navigate(MergeUnder(v, path, s).value, KeyPath(path)) == Some(Obj(Overlay(FieldsAt(v, path), s)))
    decreases |path|
  {
    var k := path[0];
    var child := if k in v.fields then v.fields[k] else Obj(map[]);
    var r := MergeUnder(v, path, s).value;
    assert KeyPath(path) == [Key(k)] + KeyPath(path[1..]);
    assert KeyPath(path)[1..] == KeyPath(path[1..]);
    assert Navigate(r, KeyPath(path)) == Navigate(r.fields[k], KeyPath(path[1..]));
    assert FieldsAt(v, path) == FieldsAt(child, path[1..]) by {
      if k !in v.fields {
        assert Navigate(v, KeyPath(path)) == None;
        if |path| > 1 {
          assert Navigate(child, KeyPath(path[1..])) == None;
        }
      }
    }
    if |path| > 1 {
      NavigateAfterMergeUnder(child, path[1..], s);
    }
  }

  /** After a successful merge at a path, the object at the path holds the
      entries it had before (none if it did not exist) overlaid with the
      source entries. */
  lemma NavigateAfterMergeAtPath(target: Value, source: Value, path: seq<string>)
    requires MergedAtPath(target, source, path).Ok?
    ensures Navigate(MergedAtPath(target, source, path).value, KeyPath(path))
         == Some(Obj(Overlay(FieldsAt(target, path), source.fields)))
  {
    if path != [] {
      NavigateAfterMergeUnder(target, path, source.fields);
    }
  }

  /** The first example of the merge-at-path documentation: merging
      {"name": "updated"} under "network_configuration". */
  lemma MergeAtPathExample()
    ensures var cfg := Obj(map["id" := Int(17), "name" := Str("old")]);
      MergedAtPath(Obj(map["id" := Int(1), "network_configuration" := cfg]),
                   Obj(map["name" := Str("updated")]), ["network_configuration"])
      == Ok(Obj(map["id" := Int(1),
                    "network_configuration" := Obj(map["id" := Int(17), "name" := Str("updated")])]))
  {
    var cfg := map["id" := Int(17), "name" := Str("old")];
    var doc := map["id" := Int(1), "network_configuration" := Obj(cfg)];
    var merged := map["id" := Int(17), "name" := Str("updated")];
    assert Overlay(cfg, map["name" := Str("updated")]) == merged;
    assert doc["network_configuration" := Obj(merged)]
        == map["id" := Int(1), "network_configuration" := Obj(merged)];
  }

  /** The walk below the root changes nothing off the path: navigating along
      any path that follows the merge keys for `i` steps and then turns away
      from them finds what it found before, siblings at every level included. */
  lemma {:induction false} MergeUnderKeepsOffPath(v: Value, path: seq<string>, s: map<string, Value>,
                                                  q: seq<Segment>, i: nat)
    requires path != [] && MergeUnder(v, path, s).Ok?
    requires i < |path| && i < |q| && q[..i] == KeyPath(path[..i]) && q[i] != Key(path[i])
    ensures Navigate(MergeUnder(v, path, s).value, q) == Navigate(v, q)
    decreases |path|
  {
    var k := path[0];
    var r := MergeUnder(v, path, s).value;
    if i > 0 {
      assert q[0] == q[..i][0] == KeyPath(path[..i])[0] == Key(k);
      var child := if k in v.fields then v.fields[k] else Obj(map[]);
      var c := MergeUnder(child, path[1..], s).value;
      assert r.fields[k] == c;
      var qt, kt := q[1..][..i - 1], KeyPath(path[1..][..i - 1]);
      assert qt == kt by {
        forall j | 0 <= j < i - 1 ensures qt[j] == kt[j] {
          assert qt[j] == q[..i][j + 1] == KeyPath(path[..i])[j + 1];
        }
      }
      MergeUnderKeepsOffPath(child, path[1..], s, q[1..], i - 1);
      assert Navigate(r, q) == Navigate(c, q[1..]);
    }
  }

  /** `jsonb_merge_at_path` changes nothing off the path: every value reached
      by leaving the merge keys after `i` steps is what it was before. */
  lemma MergeAtPathKeepsOffPath(target: Value, source: Value, path: seq<string>, q: seq<Segment>, i: nat)
    requires MergedAtPath(target, source, path).Ok?
    requires i < |path| && i < |q| && q[..i] == KeyPath(path[..i]) && q[i] != Key(path[i])
    ensures Navigate(MergedAtPath(target, source, path).value, q) == Navigate(target, q)
  {
    MergeUnderKeepsOffPath(target, path, source.fields, q, i);
  }

  /** The nested example of the smart patch documentation: merging
      {"name": "ACME Corp"} under user.company keeps the user's name, the
      company's city and the document's id. */
  lemma MergeNestedExample()
    ensures var company := Obj(map["name" := Str("ACME"), "city" := Str("NYC")]);
      var user := Obj(map["name" := Str("Alice"), "company" := company]);
      MergedAtPath(Obj(map["id" := Int(1), "user" := user]), Obj(map["name" := Str("ACME Corp")]), ["user", "company"])
      == Ok(Obj(map["id" := Int(1),
                    "user" := Obj(map["name" := Str("Alice"),
                                      "company" := Obj(map["name" := Str("ACME Corp"), "city" := Str("NYC")])])]))
  {
    var company := map["name" := Str("ACME"), "city" := Str("NYC")];
    var patched := map["name" := Str("ACME Corp"), "city" := Str("NYC")];
    assert Overlay(company, map["name" := Str("ACME Corp")]) == patched;
    var user := map["name" := Str("Alice"), "company" := Obj(company)];
    assert user["company" := Obj(patched)] == map["name" := Str("Alice"), "company" := Obj(patched)];
    var doc := map["id" := Int(1), "user" := Obj(user)];
    assert ["user", "company"][1..] == ["company"];
    assert doc["user" := Obj(map["name" := Str("Alice"), "company" := Obj(patched)])]
        == map["id" := Int(1), "user" := Obj(map["name" := Str("Alice"), "company" := Obj(patched)])];
  }

  /** `jsonb_smart_patch_nested` only forwards to the merge at a path. */
  method SmartPatchNested(target: Value, source: Value, path: seq<string>) returns (r: Result<Value>)
    ensures r == MergedAtPath(target, source, path)
  {
    r := MergeAtPath(target, source, path);
  }

  // ---------------------------------------------------------------------
  // Smart patch of an array element

  /** `jsonb_smart_patch_array`: the field `arrayPath` of the document must
      exist and hold an array, and the source must be an object; then the
      first element matching `matchValue` on `matchKey` gains the source
      entries. Only that field of the document changes. No depth guard runs
      here. */
  function SmartPatchedArray(target: Value, source: Value, arrayPath: string, matchKey: string, matchValue: Value): (r: Result<Value>)
    ensures r.Ok? <==> Get(target, arrayPath).Some? && Get(target, arrayPath).value.Arr? && source.Obj?
    ensures r.Err? ==> r.error == (if Get(target, arrayPath).None? then FieldMissing
                                   else if !Get(target, arrayPath).value.Arr? then FieldNotArray
                                   else UpdatesNotObject)
    ensures r.Ok? ==>
      && r.value.Obj?
      && r.value.fields.Keys == target.fields.Keys
      && (forall k | k in target.fields && k != arrayPath :: r.value.fields[k] == target.fields[k])
      && r.value.fields[arrayPath] == Arr(PatchedFirst(target.fields[arrayPath].items, matchKey, matchValue, source.fields))
  {
    match Get(target, arrayPath)
    case None => Err(FieldMissing)
    case Some(a) =>
      if !a.Arr? then Err(FieldNotArray)
      else if !source.Obj? then Err(UpdatesNotObject)
      else Ok(Obj(target.fields[arrayPath := Arr(PatchedFirst(a.items, matchKey, matchValue, source.fields))]))
  }

  method SmartPatchArray(target: Value, source: Value, arrayPath: string, matchKey: string, matchValue: Value)
    returns (r: Result<Value>)
    ensures r == SmartPatchedArray(target, source, arrayPath, matchKey, matchValue)
  {
    var field := Get(target, arrayPath);
    if field.None? {
      return Err(FieldMissing);
    }
    if !field.value.Arr? {
      return Err(FieldNotArray);
    }
    if !source.Obj? {
      return Err(UpdatesNotObject);
    }
    var patched := PatchFirstMatch(field.value.items, matchKey, matchValue, source.fields);
    r := Ok(Obj(target.fields[arrayPath := Arr(patched)]));
  }

  // ---------------------------------------------------------------------
  // Deep merge

  /** `deep_merge_recursive`: when both values are objects, every source
      entry is merged in, recursing where both sides hold an object and
      taking the source value otherwise; when they are not both objects the
      source wins. */
  function DeepMergeRec(t: Value, s: Value): (r: Value)
    ensures !s.Obj? ==> r == s
    ensures s.Obj? ==> r.Obj? && s.fields.Keys <= r.fields.Keys
    decreases s
  {
    if t.Obj? && s.Obj? then
      Obj(map k | k in t.fields.Keys + s.fields.Keys ::
        if k !in s.fields then t.fields[k]
        else if k in t.fields && t.fields[k].Obj? && s.fields[k].Obj? then DeepMergeRec(t.fields[k], s.fields[k])
        else s.fields[k])
    else s
  }

  /** `jsonb_deep_merge`: the source must pass the depth guard. */
  function DeepMerged(t: Value, s: Value): (r: Result<Value>)
    ensures r.Ok? <==> MaxDepth(s) <= MAX_JSONB_DEPTH
    ensures r.Err? ==> r.error == DepthExceeded
    ensures r.Ok? ==> r.value == DeepMergeRec(t, s)
  {
    ValidateDepthIff(s, MAX_JSONB_DEPTH);
    if ValidateDepth(s, MAX_JSONB_DEPTH).Some? then Err(DepthExceeded) else Ok(DeepMergeRec(t, s))
  }

  /** The shape of a deep merge: a non-object on either side gives the
      source; two objects give the union of their keys, with target-only
      entries kept, source-only entries taken, shared object entries merged
      again and any other shared entry, arrays included, taken from the
      source. */
  lemma DeepMergeShape(t: Value, s: Value)
    ensures !(t.Obj? && s.Obj?) ==> DeepMergeRec(t, s) == s
    ensures t.Obj? && s.Obj? ==>
      var r := DeepMergeRec(t, s);
      && r.Obj?
      && r.fields.Keys == t.fields.Keys + s.fields.Keys
      && (forall k | k in t.fields && k !in s.fields :: r.fields[k] == t.fields[k])
      && (forall k | k in s.fields && k !in t.fields :: r.fields[k] == s.fields[k])
      && (forall k | k in s.fields && k in t.fields && !(t.fields[k].Obj? && s.fields[k].Obj?) :: r.fields[k] == s.fields[k])
      && (forall k | k in s.fields && k in t.fields && t.fields[k].Obj? && s.fields[k].Obj? ::
            r.fields[k] == DeepMergeRec(t.fields[k], s.fields[k]))
  {
  }

  /** Merging a document into itself gives the document back. */
  lemma {:induction false} DeepMergeIdempotent(t: Value)
    ensures DeepMergeRec(t, t) == t
    decreases t
  {
    if t.Obj? {
      var r := DeepMergeRec(t, t);
      forall k | k in t.fields
        ensures r.fields[k] == t.fields[k]
      {
        if t.fields[k].Obj? {
          DeepMergeIdempotent(t.fields[k]);
        }
      }
      assert r.fields == t.fields;
    }
  }

  /** When no key holds an object on both sides, the deep merge is the
      shallow merge. */
  lemma DeepMergeFlatIsShallow(t: Value, s: Value)
    requires t.Obj? && s.Obj?
    requires forall k | k in t.fields && k in s.fields :: !(t.fields[k].Obj? && s.fields[k].Obj?)
    ensures DeepMergeRec(t, s) == Obj(Overlay(t.fields, s.fields))
  {
    assert DeepMergeRec(t, s).fields == Overlay(t.fields, s.fields);
  }

  /** Every non-object value of the source, at whatever path, is found at
      the same path in the deep merge: the source wins on every leaf. */
  lemma {:induction false} DeepMergeSourceLeavesWin(t: Value, s: Value, p: seq<Segment>)
    requires Navigate(s, p).Some? && !Navigate(s, p).value.Obj?
    ensures Navigate(DeepMergeRec(t, s), p) == Navigate(s, p)
    decreases |p|
  {
    if p != [] && t.Obj? && s.Obj? {
      var k := p[0].name;
      var r := DeepMergeRec(t, s);
      assert r.fields[k] == (if k in t.fields && t.fields[k].Obj? && s.fields[k].Obj?
                             then DeepMergeRec(t.fields[k], s.fields[k]) else s.fields[k]);
      if k in t.fields && t.fields[k].Obj? && s.fields[k].Obj? {
        DeepMergeSourceLeavesWin(t.fields[k], s.fields[k], p[1..]);
      }
    }
  }

  /** The example of the deep-merge documentation: the nested "prefs"
      objects are merged, and "name" survives. */
  lemma DeepMergeExample()
    ensures DeepMergeRec(
      Obj(map["user" := Obj(map["name" := Str("Alice"), "prefs" := Obj(map["theme" := Str("light")])])]),
      Obj(map["user" := Obj(map["prefs" := Obj(map["lang" := Str("en")])])]))
      == Obj(map["user" := Obj(map["name" := Str("Alice"),
                                   "prefs" := Obj(map["theme" := Str("light"), "lang" := Str("en")])])])
  {
    var prefsT := Obj(map["theme" := Str("light")]);
    var prefsS := Obj(map["lang" := Str("en")]);
    var prefs := Obj(map["theme" := Str("light"), "lang" := Str("en")]);
    assert DeepMergeRec(prefsT, prefsS) == prefs by {
      DeepMergeFlatIsShallow(prefsT, prefsS);
      assert Overlay(prefsT.fields, prefsS.fields) == prefs.fields;
    }
    var userT := Obj(map["name" := Str("Alice"), "prefs" := prefsT]);
    var userS := Obj(map["prefs" := prefsS]);
    var user := Obj(map["name" := Str("Alice"), "prefs" := prefs]);
    assert DeepMergeRec(userT, userS) == user by {
      assert DeepMergeRec(userT, userS).fields == user.fields;
    }
    var docT := Obj(map["user" := userT]);
    var docS := Obj(map["user" := userS]);
    assert DeepMergeRec(docT, docS).fields == map["user" := user];
  }
}

/** Finding the array element whose `match_key` field holds a given value:
    the integer-id scan, the generic equality scan, and the two ways the
    extension combines them. */
module Search {
  import opened Json

  /** Whether `elem` is an object whose field `key` equals `target`. */
  predicate Matches(elem: Value, key: string, target: Value)
  {
    Get(elem, key) == Some(target)
  }

  /** Whether `elem` is an object whose field `key` reads as the integer `id`
      through `as_i64`. */
  predicate HasIntId(elem: Value, key: string, id: int)
  {
    Get(elem, key).Some? && AsI64(Get(elem, key).value) == Some(id)
  }

  /** The generic scan, `position(|elem| elem.get(key) == Some(target))`: the
      index of the first element whose field equals `target`. */
  function FirstMatch(items: seq<Value>, key: string, target: Value): (r: Option<nat>)
    ensures r.Some? ==> r.value < |items| && Matches(items[r.value], key, target)
    ensures r.Some? ==> forall j | 0 <= j < r.value :: !Matches(items[j], key, target)
    ensures r.None? ==> forall j | 0 <= j < |items| :: !Matches(items[j], key, target)
  {
    if items == [] then None
    else if Matches(items[0], key, target) then Some(0)
    else
      var rest := FirstMatch(items[1..], key, target);
      assert forall j | 1 <= j < |items| :: items[j] == items[1..][j - 1];
      if rest.Some? then Some(rest.value + 1) else None
  }

  /** The integer-id search of the search module: the index of the first
      element whose field reads as `id`. Its unrolled shape is a performance
      detail; this is the linear scan it stands for. */
  function FindByIntId(items: seq<Value>, key: string, id: int): (r: Option<nat>)
    ensures r.Some? ==> r.value < |items| && HasIntId(items[r.value], key, id)
    ensures r.Some? ==> forall j | 0 <= j < r.value :: !HasIntId(items[j], key, id)
    ensures r.None? ==> forall j | 0 <= j < |items| :: !HasIntId(items[j], key, id)
  {
    if items == [] then None
    else if HasIntId(items[0], key, id) then Some(0)
    else
      var rest := FindByIntId(items[1..], key, id);
      assert forall j | 1 <= j < |items| :: items[j] == items[1..][j - 1];
      if rest.Some? then Some(rest.value + 1) else None
  }

  /** A field reads as the integer `id` exactly when it equals the number
      `id`: an `Int` holds every number `as_i64` accepts, and nothing else. */
  lemma HasIntIdIsMatch(elem: Value, key: string, id: I64)
    ensures HasIntId(elem, key, id) <==> Matches(elem, key, Int(id))
  {
  }

  /** The integer search is the generic scan for an integer value. */
  lemma {:induction false} FindByIntIdIsFirstMatch(items: seq<Value>, key: string, id: I64)
    ensures FindByIntId(items, key, id) == FirstMatch(items, key, Int(id))
  {
    if items != [] {
      HasIntIdIsMatch(items[0], key, id);
      FindByIntIdIsFirstMatch(items[1..], key, id);
    }
  }

  /** `find_element_by_match` of the array and merge modules: the integer
      search first when the match value is an integer, and the generic scan
      when that finds nothing or the value is not an integer. The fallback
      adds nothing: the result is the first element whose field equals the
      value, whatever the value. */
  function FindElementByMatch(items: seq<Value>, key: string, target: Value): (r: Option<nat>)
    ensures r == FirstMatch(items, key, target)
  {
    if target.Int? then
      FindByIntIdIsFirstMatch(items, key, target.i);
      var fast := FindByIntId(items, key, target.i);
      if fast.Some? then fast else FirstMatch(items, key, target)
    else FirstMatch(items, key, target)
  }

  /** `find_element_by_match` of the top-level module: the integer search
      alone when the match value is an integer, the generic scan otherwise. It
      finds the same element as the variant with fallback. */
  function FindElementByMatchNoFallback(items: seq<Value>, key: string, target: Value): (r: Option<nat>)
    ensures r == FirstMatch(items, key, target)
    ensures r == FindElementByMatch(items, key, target)
  {
    if target.Int? then
      FindByIntIdIsFirstMatch(items, key, target.i);
      FindByIntId(items, key, target.i)
    else FirstMatch(items, key, target)
  }

  /** The array after `updates` is inserted into the first element matching
      `target`. Only that element changes: the length and every other element
      are kept, the matched object gains the updates (which win on a shared
      key) and keeps its other fields, and without a match, or when the
      matching element is not an object, nothing changes. */
  function PatchedFirst(items: seq<Value>, key: string, target: Value, updates: map<string, Value>): (r: seq<Value>)
    ensures |r| == |items|
    ensures FirstMatch(items, key, target).None? ==> r == items
    ensures FirstMatch(items, key, target).Some? ==>
      var i := FirstMatch(items, key, target).value;
      && (forall j | 0 <= j < |items| && j != i :: r[j] == items[j])
      && (items[i].Obj? ==>
            (r[i].Obj?
             && r[i].fields.Keys == items[i].fields.Keys + updates.Keys
             && (forall k | k in updates :: r[i].fields[k] == updates[k])
             && (forall k | k in items[i].fields && k !in updates :: r[i].fields[k] == items[i].fields[k])))
      && (!items[i].Obj? ==> r == items)
  {
    match FindElementByMatch(items, key, target)
    case None => items
    case Some(i) => if items[i].Obj? then items[i := Obj(Overlay(items[i].fields, updates))] else items
  }

  /** The patch step shared by the array update and the array smart patch:
      find the element, then insert the updates into its map one by one. */
  method PatchFirstMatch(items: seq<Value>, key: string, target: Value, updates: map<string, Value>)
    returns (r: seq<Value>)
    ensures r == PatchedFirst(items, key, target, updates)
  {
    r := items;
    var found := FindElementByMatch(items, key, target);
    if found.Some? {
      var idx := found.value;
      if items[idx].Obj? {
        var merged := InsertAll(items[idx].fields, updates);
        r := items[idx := Obj(merged)];
      }
    }
  }
}

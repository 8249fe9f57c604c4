/** Surgery on an array held in a top-level field of a document: update of
    the first matching element, batch update by integer id, deletion of the
    first match, and insertion that can keep the array sorted by a key under
    the extension's cross-kind comparator. */
module ArrayOps {
  import opened Json
  import opened Depth
  import opened Search
  import opened Merge

  // ---------------------------------------------------------------------
  // Update of the first match

  /** `jsonb_array_update_where`: the field must exist and hold an array,
      the updates must pass the depth guard and be an object, all checked
      before anything changes; then the first element matching `matchValue`
      on `matchKey` gains the updates. Only that field of the document
      changes. */
  function UpdatedWhere(target: Value, arrayPath: string, matchKey: string, matchValue: Value, updates: Value): (r: Result<Value>)
    ensures r.Ok? <==>
      Get(target, arrayPath).Some? && Get(target, arrayPath).value.Arr?
      && MaxDepth(updates) <= MAX_JSONB_DEPTH && updates.Obj?
    ensures r.Err? ==> r.error == (if Get(target, arrayPath).None? then FieldMissing
                                   else if !Get(target, arrayPath).value.Arr? then FieldNotArray
                                   else if MaxDepth(updates) > MAX_JSONB_DEPTH then DepthExceeded
                                   else UpdatesNotObject)
    ensures r.Ok? ==>
      && r.value.Obj?
      && r.value.fields.Keys == target.fields.Keys
      && (forall k | k in target.fields && k != arrayPath :: r.value.fields[k] == target.fields[k])
      && r.value.fields[arrayPath] == Arr(PatchedFirst(target.fields[arrayPath].items, matchKey, matchValue, updates.fields))
  {
    ValidateDepthIff(updates, MAX_JSONB_DEPTH);
    match Get(target, arrayPath)
    case None => Err(FieldMissing)
    case Some(a) =>
      if !a.Arr? then Err(FieldNotArray)
      else if ValidateDepth(updates, MAX_JSONB_DEPTH).Some? then Err(DepthExceeded)
      else if !updates.Obj? then Err(UpdatesNotObject)
      else Ok(Obj(target.fields[arrayPath := Arr(PatchedFirst(a.items, matchKey, matchValue, updates.fields))]))
  }

  method UpdateWhere(target: Value, arrayPath: string, matchKey: string, matchValue: Value, updates: Value)
    returns (r: Result<Value>)
    ensures r == UpdatedWhere(target, arrayPath, matchKey, matchValue, updates)
  {
    var field := Get(target, arrayPath);
    if field.None? {
      return Err(FieldMissing);
    }
    if !field.value.Arr? {
      return Err(FieldNotArray);
    }
    if ValidateDepth(updates, MAX_JSONB_DEPTH).Some? {
      return Err(DepthExceeded);
    }
    if !updates.Obj? {
      return Err(UpdatesNotObject);
    }
    var patched := PatchFirstMatch(field.value.items, matchKey, matchValue, updates.fields);
    r := Ok(Obj(target.fields[arrayPath := Arr(patched)]));
  }

  /** The update of the first match is the array smart patch behind the
      depth guard: they differ only on updates nested too deeply. */
  lemma UpdateWhereIsGuardedSmartPatch(target: Value, arrayPath: string, matchKey: string, matchValue: Value, updates: Value)
    ensures MaxDepth(updates) <= MAX_JSONB_DEPTH ==>
      UpdatedWhere(target, arrayPath, matchKey, matchValue, updates)
      == SmartPatchedArray(target, updates, arrayPath, matchKey, matchValue)
    ensures MaxDepth(updates) > MAX_JSONB_DEPTH && SmartPatchedArray(target, updates, arrayPath, matchKey, matchValue).Ok? ==>
      UpdatedWhere(target, arrayPath, matchKey, matchValue, updates) == Err(DepthExceeded)
  {
  }

  /** The example of the update documentation: server 42 gets the new ip,
      server 43 is untouched. */
  lemma UpdateWhereExample()
    ensures var s42 := Obj(map["id" := Int(42), "ip" := Str("1.1.1.1")]);
      var s43 := Obj(map["id" := Int(43), "ip" := Str("2.2.2.2")]);
      UpdatedWhere(Obj(map["dns_servers" := Arr([s42, s43])]), "dns_servers", "id", Int(42),
                   Obj(map["ip" := Str("8.8.8.8")]))
      == Ok(Obj(map["dns_servers" := Arr([Obj(map["id" := Int(42), "ip" := Str("8.8.8.8")]), s43])]))
  {
    var m42 := map["id" := Int(42), "ip" := Str("1.1.1.1")];
    var s42 := Obj(m42);
    var s43 := Obj(map["id" := Int(43), "ip" := Str("2.2.2.2")]);
    var upd := map["ip" := Str("8.8.8.8")];
    var m := map["id" := Int(42), "ip" := Str("8.8.8.8")];
    assert Matches(s42, "id", Int(42));
    assert FirstMatch([s42, s43], "id", Int(42)) == Some(0);
    assert Overlay(m42, upd) == m;
    assert PatchedFirst([s42, s43], "id", Int(42), upd) == [Obj(m), s43];
    assert map["dns_servers" := Arr([s42, s43])]["dns_servers" := Arr([Obj(m), s43])]
        == map["dns_servers" := Arr([Obj(m), s43])];
    assert ValidateDepth(Obj(upd), MAX_JSONB_DEPTH).None? by {
      SingleChildDepth("ip", Str("8.8.8.8"));
      ValidateDepthIff(Obj(upd), MAX_JSONB_DEPTH);
    }
  }

  // ---------------------------------------------------------------------
  // Batch update by integer id

  /** What a well-formed batch spec contributes: its integer id and its
      object of updates. */
  datatype BatchEntry = BatchEntry(id: int, updates: map<string, Value>)

  /** A spec is skipped unless it is an object whose `match_value` is an
      integer and whose `updates` is an object. */
  function SpecEntry(spec: Value): (r: Option<BatchEntry>)
    ensures r.Some? <==>
      spec.Obj? && Get(spec, "match_value").Some? && AsI64(Get(spec, "match_value").value).Some?
      && Get(spec, "updates").Some? && Get(spec, "updates").value.Obj?
  {
    if !spec.Obj? then None
    else match Get(spec, "match_value")
      case None => None
      case Some(mv) =>
        match AsI64(mv)
        case None => None
        case Some(id) =>
          match Get(spec, "updates")
          case Some(Obj(u)) => Some(BatchEntry(id, u))
          case _ => None
  }

  /** The lookup table built from the specs, in order: each well-formed spec
      sets its id, so a later spec with the same id replaces an earlier one. */
  function UpdateTable(specs: seq<Value>): (r: map<int, map<string, Value>>)
    ensures |r| <= |specs|
    decreases |specs|
  {
    if specs == [] then map[]
    else
      var table := UpdateTable(specs[..|specs| - 1]);
      match SpecEntry(specs[|specs| - 1])
      case Some(e) => table[e.id := e.updates]
      case None => table
  }

  /** Builds the table with a loop over the specs, as the source builds its
      hash map. */
  method BuildUpdateTable(specs: seq<Value>) returns (table: map<int, map<string, Value>>)
    ensures table == UpdateTable(specs)
  {
    table := map[];
    var i := 0;
    while i < |specs|
      invariant 0 <= i <= |specs|
      invariant table == UpdateTable(specs[..i])
    {
      assert specs[..i + 1][..i] == specs[..i];
      var entry := SpecEntry(specs[i]);
      if entry.Some? {
        table := table[entry.value.id := entry.value.updates];
      }
      i := i + 1;
    }
    assert specs[..i] == specs;
  }

  /** Whether spec `i` is well formed and carries id `id`. */
  predicate EntryFor(specs: seq<Value>, i: int, id: int)
  {
    0 <= i < |specs| && SpecEntry(specs[i]).Some? && SpecEntry(specs[i]).value.id == id
  }

  /** An id is in the table exactly when some well-formed spec carries it,
      and its updates are those of the last such spec. */
  lemma {:induction false} UpdateTableLastWins(specs: seq<Value>, id: int)
    ensures id in UpdateTable(specs) <==> exists i :: EntryFor(specs, i, id)
    ensures forall i | EntryFor(specs, i, id) && (forall j | i < j < |specs| :: !EntryFor(specs, j, id)) ::
      id in UpdateTable(specs) && UpdateTable(specs)[id] == SpecEntry(specs[i]).value.updates
    decreases |specs|
  {
    if specs != [] {
      var n := |specs| - 1;
      var init := specs[..n];
      UpdateTableLastWins(init, id);
      assert forall i | 0 <= i < n :: init[i] == specs[i];
      assert forall i | i < n :: EntryFor(init, i, id) == EntryFor(specs, i, id);
      match SpecEntry(specs[n]) {
        case None =>
          assert UpdateTable(specs) == UpdateTable(init);
          assert !EntryFor(specs, n, id);
        case Some(e) =>
          assert UpdateTable(specs) == UpdateTable(init)[e.id := e.updates];
          if e.id == id {
            assert EntryFor(specs, n, id);
          } else {
            assert !EntryFor(specs, n, id);
          }
      }
    }
  }

  /** The id of an object element, when its `matchKey` field is an
      integer. */
  function ElementId(elem: Value, matchKey: string): Option<int>
  {
    match Get(elem, matchKey)
    case Some(v) => AsI64(v)
    case None => None
  }

  /** One element under the batch: an object whose `matchKey` field is an
      integer in the table gains that id's updates, which win on a shared
      key, and keeps its other fields; any other element is kept as it is. */
  function PatchElement(elem: Value, matchKey: string, table: map<int, map<string, Value>>): (r: Value)
    ensures ElementId(elem, matchKey).None? || ElementId(elem, matchKey).value !in table ==> r == elem
    ensures ElementId(elem, matchKey).Some? && ElementId(elem, matchKey).value in table ==>
      var u := table[ElementId(elem, matchKey).value];
      && elem.Obj? && r.Obj?
      && r.fields.Keys == elem.fields.Keys + u.Keys
      && (forall k | k in u :: r.fields[k] == u[k])
      && (forall k | k in elem.fields && k !in u :: r.fields[k] == elem.fields[k])
  {
    match ElementId(elem, matchKey)
    case Some(id) => if id in table then Obj(Overlay(elem.fields, table[id])) else elem
    case None => elem
  }

  /** The batch pass over the elements, in place: each element is looked up
      in the table by its id and the updates are inserted one by one. */
  method ApplyBatch(items: seq<Value>, matchKey: string, table: map<int, map<string, Value>>) returns (r: seq<Value>)
    ensures |r| == |items|
    ensures forall i | 0 <= i < |items| :: r[i] == PatchElement(items[i], matchKey, table)
  {
    r := items;
    var i := 0;
    while i < |r|
      invariant 0 <= i <= |r| == |items|
      invariant forall j | 0 <= j < i :: r[j] == PatchElement(items[j], matchKey, table)
      invariant forall j | i <= j < |r| :: r[j] == items[j]
    {
      var id := ElementId(r[i], matchKey);
      if id.Some? && id.value in table {
        var merged := InsertAll(r[i].fields, table[id.value]);
        r := r[i := Obj(merged)];
      }
      i := i + 1;
    }
  }

  /** The batch pass as a value: every element through `PatchElement`. */
  function PatchAll(items: seq<Value>, matchKey: string, table: map<int, map<string, Value>>): (r: seq<Value>)
    ensures |r| == |items|
    ensures forall i | 0 <= i < |items| :: r[i] == PatchElement(items[i], matchKey, table)
  {
    if items == [] then []
    else [PatchElement(items[0], matchKey, table)] + PatchAll(items[1..], matchKey, table)
  }

  /** `jsonb_array_update_where_batch`: the field must exist and hold an
      array and the specs must be an array (no depth guard runs here); then
      every element whose id has an entry in the table gets that entry's
      updates. Only that field of the document changes. */
  function BatchUpdated(target: Value, arrayPath: string, matchKey: string, specs: Value): (r: Result<Value>)
    ensures r.Ok? <==> Get(target, arrayPath).Some? && Get(target, arrayPath).value.Arr? && specs.Arr?
    ensures r.Err? ==> r.error == (if Get(target, arrayPath).None? then FieldMissing
                                   else if !Get(target, arrayPath).value.Arr? then FieldNotArray
                                   else UpdatesNotArray)
    ensures r.Ok? ==>
      && r.value.Obj?
      && r.value.fields.Keys == target.fields.Keys
      && (forall k | k in target.fields && k != arrayPath :: r.value.fields[k] == target.fields[k])
      && r.value.fields[arrayPath].Arr?
      && |r.value.fields[arrayPath].items| == |target.fields[arrayPath].items|
      && forall i | 0 <= i < |target.fields[arrayPath].items| ::
           r.value.fields[arrayPath].items[i] == PatchElement(target.fields[arrayPath].items[i], matchKey, UpdateTable(specs.items))
  {
    match Get(target, arrayPath)
    case None => Err(FieldMissing)
    case Some(a) =>
      if !a.Arr? then Err(FieldNotArray)
      else if !specs.Arr? then Err(UpdatesNotArray)
      else Ok(Obj(target.fields[arrayPath := Arr(PatchAll(a.items, matchKey, UpdateTable(specs.items)))]))
  }

  method BatchUpdate(target: Value, arrayPath: string, matchKey: string, specs: Value) returns (r: Result<Value>)
    ensures r == BatchUpdated(target, arrayPath, matchKey, specs)
  {
    var field := Get(target, arrayPath);
    if field.None? {
      return Err(FieldMissing);
    }
    if !field.value.Arr? {
      return Err(FieldNotArray);
    }
    if !specs.Arr? {
      return Err(UpdatesNotArray);
    }
    var table := BuildUpdateTable(specs.items);
    var patched := ApplyBatch(field.value.items, matchKey, table);
    assert patched == PatchAll(field.value.items, matchKey, table);
    r := Ok(Obj(target.fields[arrayPath := Arr(patched)]));
  }

  /** After a batch, an element whose id no well-formed spec carries is
      unchanged, and an element whose id some spec carries has gained the
      updates of the last such spec. */
  lemma BatchPatchesByLastSpec(items: seq<Value>, matchKey: string, specs: seq<Value>, i: nat, id: int)
    requires i < |items| && ElementId(items[i], matchKey) == Some(id)
    ensures (forall s :: !EntryFor(specs, s, id)) ==> PatchAll(items, matchKey, UpdateTable(specs))[i] == items[i]
    ensures forall s | EntryFor(specs, s, id) && (forall t | s < t < |specs| :: !EntryFor(specs, t, id)) ::
      PatchAll(items, matchKey, UpdateTable(specs))[i] == Obj(Overlay(items[i].fields, SpecEntry(specs[s]).value.updates))
  {
    UpdateTableLastWins(specs, id);
  }

  // ---------------------------------------------------------------------
  // Deletion of the first match

  /** `jsonb_array_delete_where`: a missing field or one that is not an array
      leaves the document unchanged; otherwise the first element matching
      `matchValue` on `matchKey` is removed, the others keeping their order,
      and without a match nothing changes. Only that field of the document
      changes. */
  function DeletedWhere(target: Value, arrayPath: string, matchKey: string, matchValue: Value): (r: Value)
    ensures Get(target, arrayPath).None? || !Get(target, arrayPath).value.Arr? ==> r == target
    ensures Get(target, arrayPath).Some? && Get(target, arrayPath).value.Arr? ==>
      var items := target.fields[arrayPath].items;
      && r.Obj?
      && r.fields.Keys == target.fields.Keys
      && (forall k | k in target.fields && k != arrayPath :: r.fields[k] == target.fields[k])
      && r.fields[arrayPath].Arr?
      && |r.fields[arrayPath].items| == |items| - (if FirstMatch(items, matchKey, matchValue).Some? then 1 else 0)
      && (FirstMatch(items, matchKey, matchValue).None? ==> r == target)
      && (FirstMatch(items, matchKey, matchValue).Some? ==>
            var i := FirstMatch(items, matchKey, matchValue).value;
            var rest := r.fields[arrayPath].items;
            && (forall j | 0 <= j < i :: rest[j] == items[j])
            && (forall j | i <= j < |rest| :: rest[j] == items[j + 1])
            && multiset(rest) + multiset{items[i]} == multiset(items))
  {
    match Get(target, arrayPath)
    case None => target
    case Some(a) =>
      if !a.Arr? then target
      else match FindElementByMatch(a.items, matchKey, matchValue)
        case None => target
        case Some(i) =>
          assert a.items == a.items[..i] + [a.items[i]] + a.items[i + 1..];
          Obj(target.fields[arrayPath := Arr(a.items[..i] + a.items[i + 1..])])
  }

  method DeleteWhere(target: Value, arrayPath: string, matchKey: string, matchValue: Value) returns (r: Value)
    ensures r == DeletedWhere(target, arrayPath, matchKey, matchValue)
  {
    var field := Get(target, arrayPath);
    if field.None? || !field.value.Arr? {
      return target;
    }
    var items := field.value.items;
    var found := FindElementByMatch(items, matchKey, matchValue);
    r := target;
    if found.Some? {
      var i := found.value;
      r := Obj(target.fields[arrayPath := Arr(items[..i] + items[i + 1..])]);
    }
  }

  /** The deletion example of the documentation: removing post 2 of three. */
  lemma DeleteWhereExample()
    ensures var p1 := Obj(map["id" := Int(1), "title" := Str("First")]);
      var p2 := Obj(map["id" := Int(2), "title" := Str("Second")]);
      var p3 := Obj(map["id" := Int(3), "title" := Str("Third")]);
      DeletedWhere(Obj(map["posts" := Arr([p1, p2, p3])]), "posts", "id", Int(2))
      == Obj(map["posts" := Arr([p1, p3])])
  {
    var p1 := Obj(map["id" := Int(1), "title" := Str("First")]);
    var p2 := Obj(map["id" := Int(2), "title" := Str("Second")]);
    var p3 := Obj(map["id" := Int(3), "title" := Str("Third")]);
    assert FirstMatch([p1, p2, p3], "id", Int(2)) == Some(1) by {
      assert !Matches(p1, "id", Int(2)) && Matches(p2, "id", Int(2));
    }
    assert [p1, p2, p3][..1] + [p1, p2, p3][2..] == [p1, p3];
    assert map["posts" := Arr([p1, p2, p3])]["posts" := Arr([p1, p3])] == map["posts" := Arr([p1, p3])];
  }

  // ---------------------------------------------------------------------
  // The comparator

  datatype Ordering = Less | Equal | Greater

  function Reverse(o: Ordering): Ordering
  {
    match o
    case Less => Greater
    case Equal => Equal
    case Greater => Less
  }

  /** `i64::cmp`. */
  function CompareInts(a: int, b: int): Ordering
  {
    if a < b then Less else if a > b then Greater else Equal
  }

  /** `f64::partial_cmp`, on the numbers' exact values. */
  function CompareReals(a: real, b: real): Ordering
  {
    if a < b then Less else if a > b then Greater else Equal
  }

  /** `bool::cmp`: false before true. */
  function CompareBools(a: bool, b: bool): Ordering
  {
    if a == b then Equal else if !a then Less else Greater
  }

  /** `str::cmp`: character by character, a proper prefix first. */
  function CompareStrings(a: string, b: string): Ordering
    decreases |a|
  {
    if a == [] then (if b == [] then Equal else Less)
    else if b == [] then Greater
    else if a[0] < b[0] then Less
    else if a[0] > b[0] then Greater
    else CompareStrings(a[1..], b[1..])
  }

  predicate IsNumber(v: Value)
  {
    v.Int? || v.NonInt?
  }

  /** `as_f64` of a number, taken as exact. */
  function NumberValue(v: Value): real
    requires IsNumber(v)
  {
    if v.Int? then v.i as real else v.approx
  }

  /** `compare_values`: numbers by value (exactly when both are integers),
      strings and booleans by their own order, and across kinds in the order
      null, boolean, number, string, then arrays and objects, which compare
      equal to each other. The arm for a null on the left comes first, so two
      nulls compare as Less. */
  function CompareValues(a: Value, b: Value): (r: Ordering)
    ensures KindRank(a) < KindRank(b) ==> r == Less
    ensures KindRank(a) > KindRank(b) ==> r == Greater
  {
    if IsNumber(a) && IsNumber(b) then
      if a.Int? && b.Int? then CompareInts(a.i, b.i) else CompareReals(NumberValue(a), NumberValue(b))
    else if a.Str? && b.Str? then CompareStrings(a.s, b.s)
    else if a.Bool? && b.Bool? then CompareBools(a.b, b.b)
    else if a.Null? then Less
    else if b.Null? then Greater
    else if a.Bool? then Less
    else if b.Bool? then Greater
    else if IsNumber(a) then Less
    else if IsNumber(b) then Greater
    else if a.Str? then Less
    else if b.Str? then Greater
    else Equal
  }

  // A reference order, defined without the comparator, that the comparator
  // is proved to decide.

  /** The rank of a value's kind in the cross-kind order. */
  function KindRank(v: Value): nat
  {
    match v
    case Null => 0
    case Bool(_) => 1
    case Int(_) => 2
    case NonInt(_, _) => 2
    case Str(_) => 3
    case Arr(_) => 4
    case Obj(_) => 4
  }

  /** Lexicographic order on strings. */
  predicate StrLe(a: string, b: string)
    decreases |a|
  {
    a == [] || (b != [] && (a[0] < b[0] || (a[0] == b[0] && StrLe(a[1..], b[1..]))))
  }

  /** The order in which sorted arrays keep their keys: first by kind, then
      within a kind by value; null against null, and arrays and objects
      against each other, are tied. */
  predicate KeyLe(a: Value, b: Value)
  {
    KindRank(a) < KindRank(b)
    || (KindRank(a) == KindRank(b) &&
        if a.Bool? then !a.b || b.b
        else if IsNumber(a) then NumberValue(a) <= NumberValue(b)
        else if a.Str? then StrLe(a.s, b.s)
        else true)
  }

  lemma {:induction false} CompareStringsDecides(a: string, b: string)
    ensures CompareStrings(a, b) != Greater <==> StrLe(a, b)
    ensures CompareStrings(a, b) != Less <==> StrLe(b, a)
    decreases |a|
  {
    if a != [] && b != [] && a[0] == b[0] {
      CompareStringsDecides(a[1..], b[1..]);
    }
  }

  lemma {:induction false} StrLeTransitive(a: string, b: string, c: string)
    requires StrLe(a, b) && StrLe(b, c)
    ensures StrLe(a, c)
    decreases |a|
  {
    if a != [] && b != [] && c != [] && a[0] == b[0] && b[0] == c[0] {
      StrLeTransitive(a[1..], b[1..], c[1..]);
    }
  }

  lemma {:induction false} StrLeTotal(a: string, b: string)
    ensures StrLe(a, b) || StrLe(b, a)
    decreases |a|
  {
    if a != [] && b != [] && a[0] == b[0] {
      StrLeTotal(a[1..], b[1..]);
    }
  }

  /** The comparator decides the reference order, except that two nulls
      compare as Less although they are tied: it answers Less exactly when
      the right value is not at or below the left one, Greater exactly when
      the left is not at or below the right, and Equal when they are tied. */
  lemma CompareValuesDecides(a: Value, b: Value)
    ensures !(a.Null? && b.Null?) ==>
      && (CompareValues(a, b) == Less <==> !KeyLe(b, a))
      && (CompareValues(a, b) == Greater <==> !KeyLe(a, b))
      && (CompareValues(a, b) == Equal <==> KeyLe(a, b) && KeyLe(b, a))
    ensures a.Null? && b.Null? ==> CompareValues(a, b) == Less && KeyLe(a, b) && KeyLe(b, a)
  {
    if a.Str? && b.Str? {
      CompareStringsDecides(a.s, b.s);
      StrLeTotal(a.s, b.s);
    }
  }

  /** Swapping the arguments reverses the answer, for every pair but two
      nulls. */
  lemma CompareValuesSwap(a: Value, b: Value)
    requires !(a.Null? && b.Null?)
    ensures CompareValues(b, a) == Reverse(CompareValues(a, b))
  {
    CompareValuesDecides(a, b);
    CompareValuesDecides(b, a);
  }

  /** The reference order is a total preorder. */
  lemma KeyLeTotalPreorder(a: Value, b: Value, c: Value)
    ensures KeyLe(a, a)
    ensures KeyLe(a, b) || KeyLe(b, a)
    ensures KeyLe(a, b) && KeyLe(b, c) ==> KeyLe(a, c)
  {
    if a.Str? {
      StrLeTotal(a.s, a.s);
      if b.Str? {
        StrLeTotal(a.s, b.s);
        if c.Str? && StrLe(a.s, b.s) && StrLe(b.s, c.s) {
          StrLeTransitive(a.s, b.s, c.s);
        }
      }
    }
  }

  /** The orderings the comparator is documented to give. */
  lemma CompareValuesExamples()
    ensures CompareValues(Int(1), Int(2)) == Less && CompareValues(Int(3), Int(2)) == Greater
    ensures CompareValues(Bool(false), Bool(true)) == Less
    ensures CompareValues(Null, Bool(false)) == Less && CompareValues(Bool(true), Int(0)) == Less
    ensures CompareValues(Int(0), Str("")) == Less && CompareValues(Str("z"), Arr([])) == Less
    ensures CompareValues(Arr([]), Obj(map[])) == Equal && CompareValues(Obj(map[]), Arr([])) == Equal
    ensures CompareValues(Null, Null) == Less
  {
  }

  /** Timestamps held as strings sort by date. */
  lemma CompareDatesExample()
    ensures CompareValues(Str("2025-01-01"), Str("2025-01-02")) == Less
  {
    var a: string := "2025-01-01";
    var b: string := "2025-01-02";
    assert CompareStrings(a, b) == CompareStrings("1", "2") by {
      assert a[..9] == b[..9];
      StringsCommonPrefix(a, b, 9);
      assert a[9..] == "1" && b[9..] == "2";
    }
  }

  /** Strings that agree on their first `n` characters compare as their
      remainders do. */
  lemma {:induction false} StringsCommonPrefix(a: string, b: string, n: nat)
    requires n <= |a| && n <= |b| && a[..n] == b[..n]
    ensures CompareStrings(a, b) == CompareStrings(a[n..], b[n..])
    decreases n
  {
    if n > 0 {
      assert a[0] == a[..n][0] && b[0] == b[..n][0];
      assert a[1..][..n - 1] == a[1..n] == b[1..][..n - 1];
      StringsCommonPrefix(a[1..], b[1..], n - 1);
      assert a[1..][n - 1..] == a[n..] && b[1..][n - 1..] == b[n..];
    }
  }

  // ---------------------------------------------------------------------
  // Insertion, optionally keeping the array sorted

  function AsciiLower(c: char): char
  {
    if 'A' <= c <= 'Z' then (c as int + 32) as char else c
  }

  /** `sort_order.eq_ignore_ascii_case("ASC")`; any other order sorts
      descending. */
  predicate IsAsc(order: string)
    ensures IsAsc(order) <==> |order| == 3 && order[0] in {'a', 'A'} && order[1] in {'s', 'S'} && order[2] in {'c', 'C'}
  {
    |order| == 3 && AsciiLower(order[0]) == 'a' && AsciiLower(order[1]) == 's' && AsciiLower(order[2]) == 'c'
  }

  lemma IsAscExamples()
    ensures IsAsc("ASC") && IsAsc("asc") && IsAsc("Asc")
    ensures !IsAsc("DESC") && !IsAsc("desc") && !IsAsc("") && !IsAsc("ASCENDING")
  {
  }

  /** Whether the new sort value belongs before `elem`: the element has the
      sort key, and the new value compares strictly before the element's
      value in the requested direction. */
  predicate GoesBefore(nv: Value, elem: Value, sortKey: string, asc: bool)
    ensures GoesBefore(nv, elem, sortKey, asc) ==>
      && Get(elem, sortKey).Some?
      && var ev := Get(elem, sortKey).value;
         if asc then !KeyLe(ev, nv) || (nv.Null? && ev.Null?) else !KeyLe(nv, ev)
  {
    Get(elem, sortKey).Some? &&
    var ev := Get(elem, sortKey).value;
    CompareValuesDecides(nv, ev);
    if asc then CompareValues(nv, ev) == Less else CompareValues(nv, ev) == Greater
  }

  /** The `position` scan: the first element the new value goes before, or
      the length when there is none. */
  function FirstGoesBefore(items: seq<Value>, nv: Value, sortKey: string, asc: bool): (r: nat)
    ensures r <= |items|
    ensures r < |items| ==> GoesBefore(nv, items[r], sortKey, asc)
    ensures forall j | 0 <= j < r :: !GoesBefore(nv, items[j], sortKey, asc)
  {
    if items == [] then 0
    else if GoesBefore(nv, items[0], sortKey, asc) then 0
    else
      var r := 1 + FirstGoesBefore(items[1..], nv, sortKey, asc);
      assert forall j | 1 <= j < |items| :: items[j] == items[1..][j - 1];
      r
  }

  /** `find_insertion_point`: the end when the new element has no sort
      value; otherwise the first element having the sort key whose value the
      new value is strictly before, elements without the key being passed
      over, and the end when there is none. */
  function FindInsertionPoint(items: seq<Value>, newVal: Option<Value>, sortKey: string, sortOrder: string): (r: nat)
    ensures r <= |items|
    ensures newVal.None? ==> r == |items|
    ensures newVal.Some? ==>
      && (r < |items| ==> GoesBefore(newVal.value, items[r], sortKey, IsAsc(sortOrder)))
      && (forall j | 0 <= j < r :: !GoesBefore(newVal.value, items[j], sortKey, IsAsc(sortOrder)))
  {
    match newVal
    case None => |items|
    case Some(nv) => FirstGoesBefore(items, nv, sortKey, IsAsc(sortOrder))
  }

  /** The array an insertion starts from: the field's elements, or none when
      the field is absent. */
  function ArrayToInsertInto(target: Value, arrayPath: string): seq<Value>
  {
    match Get(target, arrayPath)
    case Some(a) => ItemsOf(a)
    case None => []
  }

  /** Where the new element goes: by the sort key when one is given (the
      order defaulting to "ASC"), at the end otherwise. */
  function InsertPosition(items: seq<Value>, elem: Value, sortKey: Option<string>, sortOrder: Option<string>): (r: nat)
    ensures r <= |items|
    ensures sortKey.None? ==> r == |items|
  {
    match sortKey
    case None => |items|
    case Some(key) =>
      FindInsertionPoint(items, Get(elem, key), key, if sortOrder.Some? then sortOrder.value else "ASC")
  }

  /** `jsonb_array_insert_where`: the target must be an object; an absent
      field is created as an empty array and an existing field must hold an
      array; the new element is then inserted at its position, which is the
      end when no sort key is given. Only that field of the document
      changes, and the array grows by exactly one. */
  function InsertedWhere(target: Value, arrayPath: string, elem: Value, sortKey: Option<string>, sortOrder: Option<string>): (r: Result<Value>)
    ensures r.Ok? <==> target.Obj? && (arrayPath in target.fields ==> target.fields[arrayPath].Arr?)
    ensures r.Err? ==> r.error == (if !target.Obj? then TargetNotObject else FieldNotArray)
    ensures r.Ok? ==>
      var items := ArrayToInsertInto(target, arrayPath);
      var p := InsertPosition(items, elem, sortKey, sortOrder);
      && r.value.Obj?
      && r.value.fields.Keys == target.fields.Keys + {arrayPath}
      && (forall k | k in target.fields && k != arrayPath :: r.value.fields[k] == target.fields[k])
      && r.value.fields[arrayPath].Arr?
      && var grown := r.value.fields[arrayPath].items;
      && |grown| == |items| + 1
      && grown[p] == elem
      && (forall j | 0 <= j < p :: grown[j] == items[j])
      && (forall j | p < j < |grown| :: grown[j] == items[j - 1])
  {
    if !target.Obj? then Err(TargetNotObject)
    else
      var a := if arrayPath in target.fields then target.fields[arrayPath] else Arr([]);
      if !a.Arr? then Err(FieldNotArray)
      else
        var p := InsertPosition(a.items, elem, sortKey, sortOrder);
        Ok(Obj(target.fields[arrayPath := Arr(a.items[..p] + [elem] + a.items[p..])]))
  }

  method InsertWhere(target: Value, arrayPath: string, elem: Value, sortKey: Option<string>, sortOrder: Option<string>)
    returns (r: Result<Value>)
    ensures r == InsertedWhere(target, arrayPath, elem, sortKey, sortOrder)
  {
    if !target.Obj? {
      return Err(TargetNotObject);
    }
    var a := if arrayPath in target.fields then target.fields[arrayPath] else Arr([]);
    if !a.Arr? {
      return Err(FieldNotArray);
    }
    var items := a.items;
    if sortKey.Some? {
      var order := if sortOrder.Some? then sortOrder.value else "ASC";
      var p := FindInsertionPoint(items, Get(elem, sortKey.value), sortKey.value, order);
      items := items[..p] + [elem] + items[p..];
    } else {
      assert items[..|items|] + [elem] + items[|items|..] == items + [elem];
      items := items + [elem];
    }
    r := Ok(Obj(target.fields[arrayPath := Arr(items)]));
  }

  // Sortedness of the keyed elements

  /** The sort values of the elements that have the sort key, in order. */
  function KeyedValues(items: seq<Value>, sortKey: string): seq<Value>
  {
    if items == [] then []
    else (if Get(items[0], sortKey).Some? then [Get(items[0], sortKey).value] else [])
         + KeyedValues(items[1..], sortKey)
  }

  lemma {:induction false} KeyedValuesAppend(a: seq<Value>, b: seq<Value>, sortKey: string)
    ensures KeyedValues(a + b, sortKey) == KeyedValues(a, sortKey) + KeyedValues(b, sortKey)
  {
    if a != [] {
      assert (a + b)[0] == a[0] && (a + b)[1..] == a[1..] + b;
      KeyedValuesAppend(a[1..], b, sortKey);
    } else {
      assert a + b == b;
    }
  }

  /** Every sort value comes from some element. */
  lemma {:induction false} KeyedValuesFrom(items: seq<Value>, sortKey: string, m: nat)
    requires m < |KeyedValues(items, sortKey)|
    ensures exists j :: 0 <= j < |items| && Get(items[j], sortKey) == Some(KeyedValues(items, sortKey)[m])
  {
    var head := if Get(items[0], sortKey).Some? then [Get(items[0], sortKey).value] else [];
    if m < |head| {
      assert Get(items[0], sortKey) == Some(KeyedValues(items, sortKey)[m]);
    } else {
      KeyedValuesFrom(items[1..], sortKey, m - |head|);
      var j :| 0 <= j < |items[1..]| && Get(items[1..][j], sortKey) == Some(KeyedValues(items[1..], sortKey)[m - |head|]);
      assert items[1..][j] == items[j + 1];
    }
  }

  /** Whether `a` may stand before `b` in the given direction. */
  predicate InOrder(a: Value, b: Value, asc: bool)
  {
    if asc then KeyLe(a, b) else KeyLe(b, a)
  }

  predicate SortedBy(vals: seq<Value>, asc: bool)
  {
    forall i, j | 0 <= i < j < |vals| :: InOrder(vals[i], vals[j], asc)
  }

  /** What the comparator's answer tells about the order: a value the new
      one does not go before may stand before it, and a value it goes before
      may stand after it. */
  lemma InOrderFromCompare(nv: Value, v: Value, asc: bool)
    ensures (if asc then CompareValues(nv, v) != Less else CompareValues(nv, v) != Greater) ==> InOrder(v, nv, asc)
    ensures (if asc then CompareValues(nv, v) == Less else CompareValues(nv, v) == Greater) ==> InOrder(nv, v, asc)
  {
    CompareValuesDecides(nv, v);
    KeyLeTotalPreorder(nv, v, v);
  }

  lemma InOrderTransitive(a: Value, b: Value, c: Value, asc: bool)
    requires InOrder(a, b, asc) && InOrder(b, c, asc)
    ensures InOrder(a, c, asc)
  {
    if asc {
      KeyLeTotalPreorder(a, b, c);
    } else {
      KeyLeTotalPreorder(c, b, a);
    }
  }

  /** A value placed between two sorted runs keeps them sorted when it may
      stand after everything in the first and before everything in the
      second. */
  lemma SortedAround(front: seq<Value>, nv: Value, back: seq<Value>, asc: bool)
    requires SortedBy(front + back, asc)
    requires forall m | 0 <= m < |front| :: InOrder(front[m], nv, asc)
    requires forall m | 0 <= m < |back| :: InOrder(nv, back[m], asc)
    ensures SortedBy(front + [nv] + back, asc)
  {
    var all := front + [nv] + back;
    forall i, j | 0 <= i < j < |all|
      ensures InOrder(all[i], all[j], asc)
    {
      var n := |front|;
      if i < n && j > n {
        assert all[i] == (front + back)[i] && all[j] == (front + back)[j - 1];
      } else if i > n {
        assert all[i] == (front + back)[i - 1] && all[j] == (front + back)[j - 1];
      } else if j < n {
        assert all[i] == (front + back)[i] && all[j] == (front + back)[j];
      } else if i == n {
        assert all[j] == back[j - n - 1];
      } else {
        assert all[i] == front[i];
      }
    }
  }

  /** Inserting at the point `find_insertion_point` picks keeps the sort
      values of the array sorted, in either direction. */
  lemma InsertKeepsSorted(items: seq<Value>, elem: Value, sortKey: string, sortOrder: string)
    requires SortedBy(KeyedValues(items, sortKey), IsAsc(sortOrder))
    ensures var p := FindInsertionPoint(items, Get(elem, sortKey), sortKey, sortOrder);
      SortedBy(KeyedValues(items[..p] + [elem] + items[p..], sortKey), IsAsc(sortOrder))
  {
    var asc := IsAsc(sortOrder);
    var p := FindInsertionPoint(items, Get(elem, sortKey), sortKey, sortOrder);
    var front, back := items[..p], items[p..];
    assert items == front + back;
    KeyedValuesAppend(front, back, sortKey);
    KeyedValuesAppend(front + [elem], back, sortKey);
    KeyedValuesAppend(front, [elem], sortKey);
    var kf, kb := KeyedValues(front, sortKey), KeyedValues(back, sortKey);
    assert KeyedValues([elem], sortKey) == (if Get(elem, sortKey).Some? then [Get(elem, sortKey).value] else []) by {
      assert [elem][1..] == [];
    }
    if Get(elem, sortKey).Some? {
      var nv := Get(elem, sortKey).value;
      forall m | 0 <= m < |kf| ensures InOrder(kf[m], nv, asc) {
        KeyedValuesFrom(front, sortKey, m);
        var j :| 0 <= j < |front| && Get(front[j], sortKey) == Some(kf[m]);
        assert !GoesBefore(nv, items[j], sortKey, asc);
        InOrderFromCompare(nv, kf[m], asc);
      }
      if p < |items| {
        var e := Get(items[p], sortKey).value;
        assert kb[0] == e by {
          assert back[0] == items[p];
        }
        InOrderFromCompare(nv, e, asc);
        forall m | 0 <= m < |kb| ensures InOrder(nv, kb[m], asc) {
          if m > 0 {
            assert (kf + kb)[|kf|] == e && (kf + kb)[|kf| + m] == kb[m];
            InOrderTransitive(nv, e, kb[m], asc);
          }
        }
      } else {
        assert back == [];
      }
      SortedAround(kf, nv, kb, asc);
    }
  }

  /** The sorted insertion of the documentation, with integer keys: id 2
      lands between id 1 and id 3. */
  lemma InsertSortedExample()
    ensures var e1, e2, e3 := Obj(map["id" := Int(1)]), Obj(map["id" := Int(2)]), Obj(map["id" := Int(3)]);
      InsertedWhere(Obj(map["posts" := Arr([e1, e3])]), "posts", e2, Some("id"), Some("ASC"))
      == Ok(Obj(map["posts" := Arr([e1, e2, e3])]))
  {
    var e1, e2, e3 := Obj(map["id" := Int(1)]), Obj(map["id" := Int(2)]), Obj(map["id" := Int(3)]);
    assert FindInsertionPoint([e1, e3], Some(Int(2)), "id", "ASC") == 1 by {
      assert IsAsc("ASC");
      assert !GoesBefore(Int(2), e1, "id", true);
      assert GoesBefore(Int(2), e3, "id", true);
      assert [e1, e3][1..] == [e3];
      assert FirstGoesBefore([e3], Int(2), "id", true) == 0;
    }
    assert [e1, e3][..1] + [e2] + [e1, e3][1..] == [e1, e2, e3];
    assert map["posts" := Arr([e1, e3])]["posts" := Arr([e1, e2, e3])] == map["posts" := Arr([e1, e2, e3])];
  }
}

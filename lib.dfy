/** The top-level helpers of the extension: id extraction, the containment
    check, the nested-path update of a matched array element, and the
    path-string entry point of the setter. */
module Lib {
  import opened Json
  import opened Depth
  import opened Path
  import opened Search

  /** `jsonb_extract_id`: the field `key` of an object document, as text: a
      string as itself, a number as its decimal text, anything else (and a
      missing field or a document that is not an object) as nothing. */
  function ExtractId(data: Value, key: string): (r: Option<string>)
    ensures r.Some? <==> Get(data, key).Some? && (Get(data, key).value.Str? || Get(data, key).value.Int? || Get(data, key).value.NonInt?)
    ensures r.Some? && Get(data, key).value.Str? ==> r.value == Get(data, key).value.s
  {
    match Get(data, key)
    case Some(Str(s)) => Some(s)
    case Some(Int(n)) => Some(IntText(n))
    case Some(NonInt(_, text)) => Some(text)
    case _ => None
  }

  /** An integer id comes back as text that reads as the same integer. */
  lemma ExtractIntIdRoundTrip(data: Value, key: string, n: I64)
    requires Get(data, key) == Some(Int(n))
    ensures ExtractId(data, key).Some? && SignedValue(ExtractId(data, key).value) == n
  {
    IntTextRoundTrip(n);
  }

  /** The documented uses: a string id, an integer id, a missing key and an
      id of the wrong kind. */
  lemma ExtractIdExamples()
    ensures ExtractId(Obj(map["id" := Str("550e8400"), "name" := Str("Alice")]), "id") == Some("550e8400")
    ensures ExtractId(Obj(map["id" := Int(42), "title" := Str("Post")]), "id") == Some("42")
    ensures ExtractId(Obj(map["name" := Str("Alice")]), "id") == None
    ensures ExtractId(Obj(map["id" := Bool(true)]), "id") == None
    ensures ExtractId(Arr([]), "id") == None
  {
    assert DigitChar(4) == '4' && DigitChar(2) == '2';
    assert DecimalText(42) == DecimalText(4) + [DigitChar(2)] == "42";
  }

  /** `jsonb_array_contains_id`: false when the document is not an object or
      the field is missing or not an array; otherwise whether some element's
      field `idKey` equals `idValue`. */
  function ArrayContainsId(data: Value, arrayPath: string, idKey: string, idValue: Value): (r: bool)
    ensures r <==> Get(data, arrayPath).Some? && Get(data, arrayPath).value.Arr?
                   && exists j :: 0 <= j < |Get(data, arrayPath).value.items|
                                  && Matches(Get(data, arrayPath).value.items[j], idKey, idValue)
  {
    match Get(data, arrayPath)
    case Some(Arr(items)) => FindElementByMatchNoFallback(items, idKey, idValue).Some?
    case _ => false
  }

  // ---------------------------------------------------------------------
  // Nested-path update of a matched array element

  /** `jsonb_ivm_array_update_where_path`: the update path must parse, the
      field must exist and hold an array, and the new value must pass the
      depth guard; then, in the first element matching `matchValue` on
      `matchKey`, every segment of the path but the last reshapes its node
      and descends, and a final key assigns the value while a final index
      assigns nothing. Without a match the document is returned unchanged. */
  function UpdatedWherePath(target: Value, arrayKey: string, matchKey: string, matchValue: Value,
                            updatePath: string, updateValue: Value): (r: Result<Value>)
    ensures r.Ok? <==>
      Scan(updatePath, [], []).Ok? && Get(target, arrayKey).Some? && Get(target, arrayKey).value.Arr?
      && MaxDepth(updateValue) <= MAX_JSONB_DEPTH
    ensures r.Err? ==> r.error == (if Scan(updatePath, [], []).Err? then Scan(updatePath, [], []).error
                                   else if Get(target, arrayKey).None? then FieldMissing
                                   else if !Get(target, arrayKey).value.Arr? then FieldNotArray
                                   else DepthExceeded)
  {
    ValidateDepthIff(updateValue, MAX_JSONB_DEPTH);
    ParseProducesExpressible(updatePath);
    match Scan(updatePath, [], [])
    case Err(e) => Err(e)
    case Ok(segs) =>
      match Get(target, arrayKey)
      case None => Err(FieldMissing)
      case Some(a) =>
        if !a.Arr? then Err(FieldNotArray)
        else if ValidateDepth(updateValue, MAX_JSONB_DEPTH).Some? then Err(DepthExceeded)
        else match FindElementByMatchNoFallback(a.items, matchKey, matchValue)
          case None => Ok(target)
          case Some(i) =>
            Ok(Obj(target.fields[arrayKey := Arr(a.items[i := SetAtWith(a.items[i], segs, updateValue, false)])]))
  }

  method IvmArrayUpdateWherePath(target: Value, arrayKey: string, matchKey: string, matchValue: Value,
                                 updatePath: string, updateValue: Value) returns (r: Result<Value>)
    ensures r == UpdatedWherePath(target, arrayKey, matchKey, matchValue, updatePath, updateValue)
  {
    var parsed := ParsePath(updatePath);
    if parsed.Err? {
      return Err(parsed.error);
    }
    ParseProducesExpressible(updatePath);
    var segs := parsed.value;
    var field := Get(target, arrayKey);
    if field.None? {
      return Err(FieldMissing);
    }
    if !field.value.Arr? {
      return Err(FieldNotArray);
    }
    if ValidateDepth(updateValue, MAX_JSONB_DEPTH).Some? {
      return Err(DepthExceeded);
    }
    var items := field.value.items;
    var found := FindElementByMatchNoFallback(items, matchKey, matchValue);
    if found.None? {
      return Ok(target);
    }
    var i := found.value;
    var updated := WalkAndSet(items[i], segs, updateValue, false);
    r := Ok(Obj(target.fields[arrayKey := Arr(items[i := updated])]));
  }

  /** On success, only the first matching element of the array changes: the
      document keeps its other fields, the array its length and its other
      elements. When the path ends with a key, the value is then found at the
      path inside that element; when it ends with an index, the value is
      never written. */
  lemma UpdateWherePathOnlyMatchedElement(target: Value, arrayKey: string, matchKey: string, matchValue: Value,
                                          updatePath: string, updateValue: Value)
    requires UpdatedWherePath(target, arrayKey, matchKey, matchValue, updatePath, updateValue).Ok?
    ensures var r := UpdatedWherePath(target, arrayKey, matchKey, matchValue, updatePath, updateValue).value;
      var items := target.fields[arrayKey].items;
      var segs := Scan(updatePath, [], []).value;
      && r.Obj? && r.fields.Keys == target.fields.Keys
      && (forall k | k in target.fields && k != arrayKey :: r.fields[k] == target.fields[k])
      && (FirstMatch(items, matchKey, matchValue).None? ==> r == target)
      && segs != []
      && (FirstMatch(items, matchKey, matchValue).Some? ==>
            var i := FirstMatch(items, matchKey, matchValue).value;
            var after := r.fields[arrayKey].items;
            && |after| == |items|
            && (forall j | 0 <= j < |items| && j != i :: after[j] == items[j])
            && (segs[|segs| - 1].Key? ==> Navigate(after[i], segs) == Some(updateValue))
            && (segs[|segs| - 1].Index? ==>
                  forall y :: after[i] == SetAtWith(items[i], segs, y, false)))
  {
    ParseProducesExpressible(updatePath);
    var items := target.fields[arrayKey].items;
    var segs := Scan(updatePath, [], []).value;
    var m := FirstMatch(items, matchKey, matchValue);
    if m.Some? {
      var i := m.value;
      if segs[|segs| - 1].Key? {
        NavigateAfterSetKeyEnded(items[i], segs, updateValue, false);
      } else {
        forall y ensures SetAtWith(items[i], segs, updateValue, false) == SetAtWith(items[i], segs, y, false) {
          FinalIndexWritesNothing(items[i], segs, updateValue, y);
        }
      }
    }
  }

  // ---------------------------------------------------------------------
  // The setter behind a path string

  /** `jsonb_ivm_set_path`: the path must parse and the value must pass the
      depth guard; then the value is set at the parsed path, which is never
      empty, so the setter itself cannot fail. */
  function SetPathText(target: Value, path: string, value: Value): (r: Result<Value>)
    ensures r.Ok? <==> Scan(path, [], []).Ok? && MaxDepth(value) <= MAX_JSONB_DEPTH
    ensures r.Err? ==> r.error == (if Scan(path, [], []).Err? then Scan(path, [], []).error else DepthExceeded)
    ensures r.Ok? ==> Scan(path, [], []).value != [] && r.value == SetAt(target, Scan(path, [], []).value, value)
    ensures r.Ok? ==> Navigate(r.value, Scan(path, [], []).value) == Some(value)
  {
    ValidateDepthIff(value, MAX_JSONB_DEPTH);
    ParseProducesExpressible(path);
    match Scan(path, [], [])
    case Err(e) => Err(e)
    case Ok(segs) =>
      if ValidateDepth(value, MAX_JSONB_DEPTH).Some? then Err(DepthExceeded)
      else
        NavigateAfterSet(target, segs, value);
        Ok(SetAt(target, segs, value))
  }

  method IvmSetPath(target: Value, path: string, value: Value) returns (r: Result<Value>)
    ensures r == SetPathText(target, path, value)
  {
    var parsed := ParsePath(path);
    if parsed.Err? {
      return Err(parsed.error);
    }
    ParseProducesExpressible(path);
    if ValidateDepth(value, MAX_JSONB_DEPTH).Some? {
      return Err(DepthExceeded);
    }
    r := SetPath(target, parsed.value, value);
  }
}

/** The depth guard: the nesting bound every externally supplied patch must
    pass before it is merged, and the exact depth used to state it. */
module Depth {
  import opened Json

  /** The default bound on nesting. */
  const MAX_JSONB_DEPTH: nat := 1000

  // ---------------------------------------------------------------------
  // Maximum of a finite set of depths

  lemma {:induction false} SetMaxWitness(s: set<nat>) returns (x: nat)
    requires s != {}
    ensures x in s && forall y | y in s :: y <= x
  {
    var e :| e in s;
    if s == {e} {
      x := e;
    } else {
      var z := SetMaxWitness(s - {e});
      x := if z < e then e else z;
      forall y | y in s ensures y <= x {
        if y != e { assert y in s - {e}; }
      }
    }
  }

  function SetMax(s: set<nat>): (r: nat)
    requires s != {}
    ensures r in s && forall y | y in s :: y <= r
  {
    assert exists x :: x in s && forall y | y in s :: y <= x by {
      var w := SetMaxWitness(s);
    }
    var x :| x in s && forall y | y in s :: y <= x; x
  }

  // ---------------------------------------------------------------------
  // The two walks of the depth module

  /** The depths of the elements of a container. */
  function ChildDepths(v: Value): set<nat>
    decreases v, 0
  {
    match v
    case Arr(items) => set x | x in items :: MaxDepth(x)
    case Obj(m) => set k | k in m :: MaxDepth(m[k])
    case _ => {}
  }

  /** `get_max_depth`: the deepest nesting level of a value. A scalar and an
      empty container are at level 0; a non-empty array or object is one level
      above its deepest element. */
  function MaxDepth(v: Value): (r: nat)
    ensures r == 0 <==> !(v.Arr? && v.items != []) && !(v.Obj? && v.fields != map[])
    decreases v, 1
  {
    if v.Arr? && v.items != [] then
      assert MaxDepth(v.items[0]) in ChildDepths(v);
      1 + SetMax(ChildDepths(v))
    else if v.Obj? && v.fields != map[] then
      var k :| k in v.fields;
      assert MaxDepth(v.fields[k]) in ChildDepths(v);
      1 + SetMax(ChildDepths(v))
    else 0
  }

  /** The inner `check_depth` of `validate_depth`: whether the walk that starts
      at level `current` finds no node whose level exceeds `max`. (The deepest
      level it returns on success is discarded by its only caller.) */
  predicate CheckDepth(v: Value, current: nat, max: nat)
    ensures CheckDepth(v, current, max) ==> current <= max
  {
    current <= max &&
    match v
    case Arr(items) => forall i | 0 <= i < |items| :: CheckDepth(items[i], current + 1, max)
    case Obj(m) => forall k | k in m :: CheckDepth(m[k], current + 1, max)
    case _ => true
  }

  /** `validate_depth`: passes or fails with a depth error. */
  function ValidateDepth(v: Value, max: nat): (r: Option<Error>)
    ensures r.Some? ==> r.value == DepthExceeded
  {
    if CheckDepth(v, 0, max) then None else Some(DepthExceeded)
  }

  /** The walk started at level `current` succeeds exactly when no node lies
      deeper than `max`, counting from that level. */
  lemma {:induction false} CheckDepthIff(v: Value, current: nat, max: nat)
    ensures CheckDepth(v, current, max) <==> current + MaxDepth(v) <= max
  {
    match v
    case Arr(items) =>
      if items != [] {
        var ds := ChildDepths(v);
        assert MaxDepth(items[0]) in ds;
        forall i | 0 <= i < |items|
          ensures CheckDepth(items[i], current + 1, max) <==> current + 1 + MaxDepth(items[i]) <= max
          ensures MaxDepth(items[i]) <= SetMax(ds)
        {
          CheckDepthIff(items[i], current + 1, max);
          assert MaxDepth(items[i]) in ds;
        }
        assert SetMax(ds) in ds;
        var x :| x in items && MaxDepth(x) == SetMax(ds);
        var i :| 0 <= i < |items| && items[i] == x;
      }
    case Obj(m) =>
      if m != map[] {
        var ds := ChildDepths(v);
        assert ds != {} by { var k :| k in m; assert MaxDepth(m[k]) in ds; }
        forall k | k in m
          ensures CheckDepth(m[k], current + 1, max) <==> current + 1 + MaxDepth(m[k]) <= max
          ensures MaxDepth(m[k]) <= SetMax(ds)
        {
          CheckDepthIff(m[k], current + 1, max);
          assert MaxDepth(m[k]) in ds;
        }
        assert SetMax(ds) in ds;
        var k :| k in m && MaxDepth(m[k]) == SetMax(ds);
      }
    case _ =>
  }

  /** The guard accepts exactly the values whose depth is within the bound. */
  lemma ValidateDepthIff(v: Value, max: nat)
    ensures ValidateDepth(v, max).None? <==> MaxDepth(v) <= max
  {
    CheckDepthIff(v, 0, max);
  }

  /** Arrays and objects count levels alike: a container of either kind holding
      the same set of elements has the same depth. */
  lemma ContainersCountAlike(items: seq<Value>, m: map<string, Value>)
    requires (set x | x in items) == m.Values
    ensures MaxDepth(Arr(items)) == MaxDepth(Obj(m))
  {
    assert ChildDepths(Arr(items)) == ChildDepths(Obj(m)) by {
      forall d | d in ChildDepths(Arr(items)) ensures d in ChildDepths(Obj(m)) {
        var x :| x in items && d == MaxDepth(x);
        assert x in m.Values;
        var k :| k in m && m[k] == x;
      }
      forall d | d in ChildDepths(Obj(m)) ensures d in ChildDepths(Arr(items)) {
        var k :| k in m && d == MaxDepth(m[k]);
        assert m[k] in m.Values;
      }
    }
    assert forall k | k in m :: m[k] in m.Values;
    assert (items == []) == (m == map[]) by {
      if items != [] { assert items[0] in m.Values; }
    }
  }

  // ---------------------------------------------------------------------
  // Nesting chains, as built by the threshold tests

  /** `v` wrapped in `n` objects of the form {"nested": ...}. */
  function Nest(v: Value, n: nat): Value
  {
    if n == 0 then v else Obj(map["nested" := Nest(v, n - 1)])
  }

  lemma SingleChildDepth(k: string, v: Value)
    ensures MaxDepth(Obj(map[k := v])) == 1 + MaxDepth(v)
  {
    var m := map[k := v];
    assert ChildDepths(Obj(m)) == {MaxDepth(v)} by {
      assert MaxDepth(m[k]) in ChildDepths(Obj(m));
      forall d | d in ChildDepths(Obj(m)) ensures d == MaxDepth(v) {
        var k' :| k' in m && d == MaxDepth(m[k']);
      }
    }
  }

  /** Each wrapping object adds exactly one level. */
  lemma {:induction false} NestDepth(v: Value, n: nat)
    ensures MaxDepth(Nest(v, n)) == MaxDepth(v) + n
  {
    if n > 0 {
      var w := Nest(v, n - 1);
      assert Nest(v, n) == Obj(map["nested" := w]);
      NestDepth(v, n - 1);
      SingleChildDepth("nested", w);
    }
  }

  /** The object {"level": 1} that the threshold chains start from. */
  function Level1(): Value
  {
    Obj(map["level" := Int(1)])
  }

  /** A chain nested exactly to the bound passes; one level more fails. */
  lemma DepthThreshold()
    ensures MaxDepth(Nest(Level1(), MAX_JSONB_DEPTH - 1)) == MAX_JSONB_DEPTH
    ensures ValidateDepth(Nest(Level1(), MAX_JSONB_DEPTH - 1), MAX_JSONB_DEPTH).None?
    ensures ValidateDepth(Nest(Level1(), MAX_JSONB_DEPTH), MAX_JSONB_DEPTH) == Some(DepthExceeded)
  {
    SingleChildDepth("level", Int(1));
    NestDepth(Level1(), MAX_JSONB_DEPTH - 1);
    NestDepth(Level1(), MAX_JSONB_DEPTH);
    ValidateDepthIff(Nest(Level1(), MAX_JSONB_DEPTH - 1), MAX_JSONB_DEPTH);
    ValidateDepthIff(Nest(Level1(), MAX_JSONB_DEPTH), MAX_JSONB_DEPTH);
  }

  /** Whatever the value, more than MAX_JSONB_DEPTH wrapping objects make the
      guard fail. */
  lemma DeepWrappingFails(v: Value, n: nat)
    requires n > MAX_JSONB_DEPTH
    ensures ValidateDepth(Nest(v, n), MAX_JSONB_DEPTH) == Some(DepthExceeded)
  {
    NestDepth(v, n);
    ValidateDepthIff(Nest(v, n), MAX_JSONB_DEPTH);
  }

  /** The depths the unit tests expect: a scalar is at level 0, {"a": 1} at
      level 1 and {"a": {"b": {"c": 1}}} at level 3. */
  lemma ObjectDepthExamples()
    ensures MaxDepth(Int(42)) == 0
    ensures MaxDepth(Obj(map["a" := Int(1)])) == 1
    ensures MaxDepth(Obj(map["a" := Obj(map["b" := Obj(map["c" := Int(1)])])])) == 3
  {
    SingleChildDepth("a", Int(1));
    SingleChildDepth("c", Int(1));
    SingleChildDepth("b", Obj(map["c" := Int(1)]));
    SingleChildDepth("a", Obj(map["b" := Obj(map["c" := Int(1)])]));
  }

  /** [{"a": [1, 2]}] is at level 3: arrays count like objects. */
  lemma ArrayDepthExample()
    ensures MaxDepth(Arr([Obj(map["a" := Arr([Int(1), Int(2)])])])) == 3
  {
    var inner := Arr([Int(1), Int(2)]);
    assert ChildDepths(inner) == {0} by {
      assert MaxDepth(Int(1)) == 0 && MaxDepth(Int(2)) == 0;
      assert 0 in ChildDepths(inner);
      forall d | d in ChildDepths(inner) ensures d == 0 {
        var x :| x in inner.items && d == MaxDepth(x);
      }
    }
    assert MaxDepth(inner) == 1;
    SingleChildDepth("a", inner);
    var outer := Arr([Obj(map["a" := inner])]);
    assert ChildDepths(outer) == {2} by {
      assert MaxDepth(outer.items[0]) == 2;
      assert 2 in ChildDepths(outer);
      forall d | d in ChildDepths(outer) ensures d == 2 {
        var x :| x in outer.items && d == MaxDepth(x);
      }
    }
  }
}

/**
 Merging addon values: user overrides are laid over the defaults of a release,
 object by object. Decoding a raw entry can fail; entries that cannot be decoded
 are skipped.
 */
module DeepMerge {
  import opened Wrappers

  datatype Json =
    | Null
    | Bool(b: bool)
    | Number(n: real)
    | Text(s: string)
    | Array(items: seq<Json>)
    | Object(fields: map<string, Json>)

  function Merge(base: Json, over: Json): Json
    decreases over
  {
    if !base.Object? || !over.Object? then over
    else Object(map k | k in base.fields.Keys + over.fields.Keys ::
      if k !in over.fields then base.fields[k]
      else if k !in base.fields then over.fields[k]
      else Merge(base.fields[k], over.fields[k]))
  }

  /** The source's loops: copy the base, then fold the override in, key by key in any order. */
  method DeepMerge(base: Json, over: Json) returns (r: Json)
    ensures r == Merge(base, over)
    decreases over
  {
    if !base.Object? || !over.Object? { return over; }
    var result := base.fields;
    var rest := over.fields.Keys;
    ghost var target := Merge(base, over).fields;
    while rest != {}
      invariant rest <= over.fields.Keys
      invariant result.Keys == base.fields.Keys + (over.fields.Keys - rest)
      invariant forall k :: k in result ==>
        result[k] == if k in rest || k !in over.fields then base.fields[k] else target[k]
    {
      var k :| k in rest;
      rest := rest - {k};
      if k in result {
        var merged := DeepMerge(result[k], over.fields[k]);
        result := result[k := merged];
      } else {
        result := result[k := over.fields[k]];
      }
    }
    assert result == target;
    return Object(result);
  }

  /** The entries of one value map that decode. */
  function Decoded(raw: map<string, Option<Json>>): map<string, Json> {
    map k | k in raw && raw[k].Some? :: raw[k].value
  }

  /** A key the map does not hold reads as null. */
  function Field(m: map<string, Json>, k: string): Json {
    if k in m then m[k] else Null
  }

  method MergeValues(defaults: map<string, Option<Json>>, overrides: map<string, Option<Json>>)
      returns (result: map<string, Json>)
    ensures Object(result) == Merge(Object(Decoded(defaults)), Object(Decoded(overrides)))
  {
    result := ApplyDefaults(defaults);
    result := ApplyOverrides(result, overrides);
  }

  method ApplyDefaults(defaults: map<string, Option<Json>>) returns (result: map<string, Json>)
    ensures result == Decoded(defaults)
  {
    result := map[];
    var rest := defaults.Keys;
    ghost var base := Decoded(defaults);
    while rest != {}
      invariant rest <= defaults.Keys
      invariant result == map k | k in base && k !in rest :: base[k]
    {
      var k :| k in rest;
      rest := rest - {k};
      if defaults[k].Some? { result := result[k := defaults[k].value]; }
    }
  }

  method ApplyOverrides(base: map<string, Json>, overrides: map<string, Option<Json>>)
      returns (result: map<string, Json>)
    ensures Object(result) == Merge(Object(base), Object(Decoded(overrides)))
  {
    ghost var over := Decoded(overrides);
    ghost var target := Merge(Object(base), Object(over)).fields;
    result := base;
    var rest := overrides.Keys;
    while rest != {}
      invariant rest <= overrides.Keys
      invariant result.Keys == base.Keys + (over.Keys - rest)
      invariant forall k :: k in result ==> result[k] == if k in rest || k !in over then base[k] else target[k]
    {
      var k :| k in rest;
      rest := rest - {k};
      if overrides[k].Some? {
        var merged := DeepMerge(Field(result, k), overrides[k].value);
        result := result[k := merged];
      }
    }
    assert result == target;
  }

  // ----- Laws

  /** Merging a value over itself changes nothing. */
  lemma {:induction false} Idempotent(a: Json)
    ensures Merge(a, a) == a
    decreases a
  {
    if a.Object? {
      forall k | k in a.fields
        ensures Merge(a.fields[k], a.fields[k]) == a.fields[k]
      {
        Idempotent(a.fields[k]);
      }
      assert Merge(a, a).fields == a.fields;
    }
  }

  /** Applying the same override a second time changes nothing. */
  lemma {:induction false} Absorbs(base: Json, over: Json)
    ensures Merge(Merge(base, over), over) == Merge(base, over)
    decreases over
  {
    Idempotent(over);
    if base.Object? && over.Object? {
      var once := Merge(base, over);
      forall k | k in over.fields
        ensures Merge(once.fields[k], over.fields[k]) == once.fields[k]
      {
        if k in base.fields {
          Absorbs(base.fields[k], over.fields[k]);
        } else {
          Idempotent(over.fields[k]);
        }
      }
      assert Merge(once, over).fields == once.fields;
    }
  }

  /** The value at a path of object keys. */
  function At(j: Json, path: seq<string>): Option<Json> {
    if path == [] then Some(j)
    else if j.Object? && path[0] in j.fields then At(j.fields[path[0]], path[1..])
    else None
  }

  /** What a path shows: a leaf, or that there is an object. */
  function ShapeAt(j: Json, path: seq<string>): Option<Json> {
    match At(j, path)
    case Some(Object(_)) => Some(Object(map[]))
    case other => other
  }

  /** Walking the path in the override leaves it at an object that does not mention the next key. */
  predicate Unshadowed(over: Json, path: seq<string>)
    decreases |path|
  {
    path != [] && over.Object? && (path[0] !in over.fields || Unshadowed(over.fields[path[0]], path[1..]))
  }

  /**
   At every path the merged value shows what the override shows there, or what
   the base shows where the override does not shadow it, and nothing else.
   */
  lemma {:induction false} PathLaw(base: Json, over: Json, path: seq<string>, v: Json)
    ensures ShapeAt(Merge(base, over), path) == Some(v) <==>
      ShapeAt(over, path) == Some(v) || (ShapeAt(base, path) == Some(v) && Unshadowed(over, path))
    decreases |path|
  {
    if path != [] && base.Object? && over.Object? && path[0] in base.fields && path[0] in over.fields {
      PathLaw(base.fields[path[0]], over.fields[path[0]], path[1..], v);
    }
  }

  /** The object `c` supplies a value for everything that `a` holds. */
  predicate Covered(a: Json, c: Json)
    requires a.Object? && c.Object?
    decreases a
  {
    forall k :: k in a.fields ==>
      k in c.fields && (a.fields[k].Object? && c.fields[k].Object? ==> Covered(a.fields[k], c.fields[k]))
  }

  lemma {:induction false} CoveredMeansNoEffect(a: Json, c: Json)
    requires a.Object? && c.Object?
    ensures Merge(a, c) == c <==> Covered(a, c)
    decreases a
  {
    forall k | k in a.fields && k in c.fields && a.fields[k].Object? && c.fields[k].Object?
      ensures Merge(a.fields[k], c.fields[k]) == c.fields[k] <==> Covered(a.fields[k], c.fields[k])
    {
      CoveredMeansNoEffect(a.fields[k], c.fields[k]);
    }
    var merged := Merge(a, c).fields;
    if merged == c.fields {
      forall k | k in a.fields
        ensures k in c.fields && merged[k] == c.fields[k]
      {
        assert k in merged;
      }
    }
    if Covered(a, c) {
      assert merged.Keys == c.fields.Keys;
      forall k | k in c.fields
        ensures merged[k] == c.fields[k]
      {
        if k in a.fields {
          assert merged[k] == Merge(a.fields[k], c.fields[k]);
        }
      }
      assert merged == c.fields;
    }
  }

  /**
   Wherever the outer values both hold an object, the middle one does too, or
   the last one covers the first.
   */
  predicate Associates(a: Json, b: Json, c: Json)
    decreases b
  {
    if !a.Object? || !c.Object? then true
    else if !b.Object? then Covered(a, c)
    else forall k :: k in b.fields && k in a.fields && k in c.fields ==>
      Associates(a.fields[k], b.fields[k], c.fields[k])
  }

  /** The two ways of merging three values agree exactly when they associate. */
  lemma {:induction false} AssociativeExactly(a: Json, b: Json, c: Json)
    ensures Merge(Merge(a, b), c) == Merge(a, Merge(b, c)) <==> Associates(a, b, c)
    decreases b
  {
    if a.Object? && c.Object? {
      if !b.Object? {
        CoveredMeansNoEffect(a, c);
      } else {
        var left, right := Merge(Merge(a, b), c).fields, Merge(a, Merge(b, c)).fields;
        forall k | k in a.fields && k in b.fields && k in c.fields
          ensures left[k] == right[k] <==> Associates(a.fields[k], b.fields[k], c.fields[k])
        {
          AssociativeExactly(a.fields[k], b.fields[k], c.fields[k]);
        }
        assert left.Keys == right.Keys;
        if Associates(a, b, c) {
          assert left == right;
        }
      }
    }
  }
}

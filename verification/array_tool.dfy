/**
 Lookup of values in nested PHP arrays by colon-separated key paths
 (`Codeacious\Stdlib\ArrayTool`). A PHP value is either a scalar or an array
 from string keys to values; the lookup walks one path segment per level.
 */
module ArrayTool {
  import opened Options
  import opened KeyPath

  /** The PHP scalars a nested array may hold. */
  datatype Scalar = Null | Bool(b: bool) | Int(i: int) | Str(s: string)

  /** A PHP value: a scalar leaf, or an array from keys to values. */
  datatype Value = Leaf(scalar: Scalar) | Arr(entries: map<string, Value>)

  /**
   The value reached from `v` by following `keys`, or None when some key is
   missing or the walk meets a scalar before the keys run out.
   */
  function Find(v: Value, keys: seq<string>): Option<Value>
    decreases |keys|
  {
    if |keys| == 0 then Some(v)
    else match v
      case Leaf(_) => None
      case Arr(m) => if keys[0] in m then Find(m[keys[0]], keys[1..]) else None
  }

  /** Continues a lookup from an intermediate result. */
  function FindFrom(o: Option<Value>, keys: seq<string>): Option<Value> {
    match o
    case None => None
    case Some(w) => Find(w, keys)
  }

  /** The value at `keyPath` in `source`, if the path exists. */
  function ValueAt(source: map<string, Value>, keyPath: string): Option<Value> {
    Find(Arr(source), Split(keyPath))
  }

  /** A lookup along `p + q` is a lookup along `p` followed by one along `q`. */
  lemma {:induction false} FindAppend(v: Value, p: seq<string>, q: seq<string>)
    ensures Find(v, p + q) == FindFrom(Find(v, p), q)
    decreases |p|
  {
    if |p| > 0 {
      assert (p + q)[0] == p[0];
      assert (p + q)[1..] == p[1..] + q;
      match v
      case Leaf(_) =>
      case Arr(m) =>
        if p[0] in m {
          FindAppend(m[p[0]], p[1..], q);
        }
    } else {
      assert p + q == q;
    }
  }

  /** One more key: the step succeeds only from an array that has that key. */
  lemma FindStep(v: Value, p: seq<string>, k: string)
    ensures Find(v, p + [k]) ==
      (match Find(v, p)
       case Some(Arr(m)) => if k in m then Some(m[k]) else None
       case _ => None)
  {
    FindAppend(v, p, [k]);
    match Find(v, p)
    case None =>
    case Some(w) =>
      assert Find(w, [k]) == (if w.Arr? && k in w.entries then Some(w.entries[k]) else None);
  }

  /**
   A trail for `keys` from `v`: the sequence of values visited, where every
   value before the last is an array holding the next key.
   */
  ghost predicate IsTrail(v: Value, keys: seq<string>, trail: seq<Value>) {
    && |trail| == |keys| + 1
    && trail[0] == v
    && forall i :: 0 <= i < |keys| ==>
         && trail[i].Arr?
         && keys[i] in trail[i].entries
         && trail[i + 1] == trail[i].entries[keys[i]]
  }

  /** When every segment exists and each intermediate value is an array, the lookup ends at the trail's last value. */
  lemma {:induction false} TrailIsFound(v: Value, keys: seq<string>, trail: seq<Value>)
    requires IsTrail(v, keys, trail)
    ensures Find(v, keys) == Some(trail[|keys|])
    decreases |keys|
  {
    if |keys| > 0 {
      assert trail[0].Arr? && keys[0] in trail[0].entries;
      assert IsTrail(trail[1], keys[1..], trail[1..]);
      TrailIsFound(trail[1], keys[1..], trail[1..]);
    }
  }

  /** Conversely, every successful lookup has a trail. */
  lemma {:induction false} FoundHasTrail(v: Value, keys: seq<string>) returns (trail: seq<Value>)
    requires Find(v, keys).Some?
    ensures IsTrail(v, keys, trail)
    ensures trail[|keys|] == Find(v, keys).value
    decreases |keys|
  {
    if |keys| == 0 {
      trail := [v];
    } else {
      var next := v.entries[keys[0]];
      var rest := FoundHasTrail(next, keys[1..]);
      trail := [v] + rest;
      forall i | 0 <= i < |keys|
        ensures trail[i].Arr? && keys[i] in trail[i].entries && trail[i + 1] == trail[i].entries[keys[i]]
      {
        if i > 0 {
          assert trail[i] == rest[i - 1] && trail[i + 1] == rest[i] && keys[i] == keys[1..][i - 1];
        }
      }
    }
  }

  /** A segment absent from the array reached so far makes the whole lookup fail. */
  lemma MissingSegmentFails(v: Value, keys: seq<string>, i: nat)
    requires i < |keys|
    requires Find(v, keys[..i]).Some? && Find(v, keys[..i]).value.Arr?
    requires keys[i] !in Find(v, keys[..i]).value.entries
    ensures Find(v, keys) == None
  {
    assert keys == keys[..i] + [keys[i]] + keys[i + 1..];
    FindStep(v, keys[..i], keys[i]);
    FindAppend(v, keys[..i] + [keys[i]], keys[i + 1..]);
  }

  /** Reaching a scalar before the segments run out fails, whatever the remaining segments are. */
  lemma ScalarIntermediateFails(v: Value, keys: seq<string>, i: nat)
    requires i < |keys|
    requires Find(v, keys[..i]).Some? && Find(v, keys[..i]).value.Leaf?
    ensures Find(v, keys) == None
  {
    assert keys == keys[..i] + keys[i..];
    FindAppend(v, keys[..i], keys[i..]);
  }

  /**
   `getValueAtPath`: splits `keyPath` on ':' and walks `source` one segment
   at a time, returning `default` as soon as the current value is not an
   array or lacks the segment.
   */
  method GetValueAtPath(source: map<string, Value>, keyPath: string, default: Value) returns (r: Value)
    ensures ValueAt(source, keyPath).Some? ==> r == ValueAt(source, keyPath).value
    ensures ValueAt(source, keyPath).None? ==> r == default
  {
    var keys := Split(keyPath);
    var current := Arr(source);
    var i := 0;
    while i < |keys|
      invariant 0 <= i <= |keys|
      invariant Find(Arr(source), keys[..i]) == Some(current)
    {
      var key := keys[i];
      if !current.Arr? || key !in current.entries {
        if current.Arr? {
          MissingSegmentFails(Arr(source), keys, i);
        } else {
          ScalarIntermediateFails(Arr(source), keys, i);
        }
        return default;
      }
      assert keys[..i + 1] == keys[..i] + [key];
      FindStep(Arr(source), keys[..i], key);
      current := current.entries[key];
      i := i + 1;
    }
    assert keys[..i] == keys;
    return current;
  }

  /**
   `getArrayAtPath`: the array at `keyPath`, or the empty array when the
   path is missing or leads to a scalar.
   */
  method GetArrayAtPath(source: map<string, Value>, keyPath: string) returns (r: map<string, Value>)
    ensures ValueAt(source, keyPath).Some? && ValueAt(source, keyPath).value.Arr? ==>
              r == ValueAt(source, keyPath).value.entries
    ensures !(ValueAt(source, keyPath).Some? && ValueAt(source, keyPath).value.Arr?) ==> r == map[]
  {
    var value := GetValueAtPath(source, keyPath, Leaf(Null));
    if !value.Arr? {
      return map[];
    }
    return value.entries;
  }

  /** The empty path looks up the key "", not the root array. */
  lemma EmptyPathIsEmptyKey(source: map<string, Value>)
    ensures ValueAt(source, "") == (if "" in source then Some(source[""]) else None)
  {
    EmptyPathIsOneEmptySegment();
    var keys := Split("");
    assert keys[1..] == [];
    if "" in source {
      assert Find(source[""], keys[1..]) == Some(source[""]);
    }
  }

  /** Looking up `p + ":" + q` continues the lookup of `p` with that of `q`. */
  lemma PathConcat(source: map<string, Value>, p: string, q: string)
    ensures ValueAt(source, p + [Separator] + q) == FindFrom(ValueAt(source, p), Split(q))
  {
    SplitConcat(p, q);
    FindAppend(Arr(source), Split(p), Split(q));
  }

  /**
   Compositionality: when `p` leads to an array `a`, looking up `p:q` in
   `source` is looking up `q` in `a`.
   */
  lemma PathCompose(source: map<string, Value>, p: string, q: string, a: map<string, Value>)
    requires ValueAt(source, p) == Some(Arr(a))
    ensures ValueAt(source, p + [Separator] + q) == ValueAt(a, q)
  {
    PathConcat(source, p, q);
  }

  /** When `p` is missing or leads to a scalar, every extension `p:q` is missing too. */
  lemma PathThroughScalarFails(source: map<string, Value>, p: string, q: string)
    requires ValueAt(source, p).None? || ValueAt(source, p).value.Leaf?
    ensures ValueAt(source, p + [Separator] + q) == None
  {
    PathConcat(source, p, q);
    var s := Split(q);
    assert |s| >= 1;
  }

  /** The nested-lookup examples: `a:b` finds 5, `a:c` is missing, `x:y` passes through a scalar. */
  lemma NestedLookupExamples()
    ensures ValueAt(map["a" := Arr(map["b" := Leaf(Int(5))])], "a:b") == Some(Leaf(Int(5)))
    ensures ValueAt(map["a" := Arr(map["b" := Leaf(Int(5))])], "a:c") == None
    ensures ValueAt(map["x" := Leaf(Int(1))], "x:y") == None
  {
    var source := map["a" := Arr(map["b" := Leaf(Int(5))])];
    assert "a:b" == "a" + [Separator] + "b";
    assert "a:c" == "a" + [Separator] + "c";
    assert "x:y" == "x" + [Separator] + "y";
    SplitSegment("a");
    SplitSegment("b");
    assert ["b"][1..] == [];
    assert ["a"][1..] == [];
    PathCompose(source, "a", "b", map["b" := Leaf(Int(5))]);
    PathCompose(source, "a", "c", map["b" := Leaf(Int(5))]);
    PathThroughScalarFails(map["x" := Leaf(Int(1))], "x", "y");
  }
}

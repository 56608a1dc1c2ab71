// Layered configuration: the deep merge of value trees and the fold over layers.
module ConfigMerge {
  import opened Options

  /** A scalar or array, which a merge replaces whole, or a table. */
  datatype Value = Leaf(text: string) | Table(entries: map<string, Value>)

  /** The merge of two trees; `over` is the more specific one. */
  function Merge(base: Value, over: Value): Value
    decreases over
  {
    if base.Leaf? || over.Leaf? then over
    else
      Table(map k | k in base.entries.Keys + over.entries.Keys ::
        if k !in over.entries then base.entries[k]
        else if k !in base.entries then over.entries[k]
        else Merge(base.entries[k], over.entries[k]))
  }

  /** The entries after the keys `done` of `over` have been merged in. */
  ghost predicate PartlyMerged(base: Value, over: Value, todo: set<string>, acc: map<string, Value>)
    requires base.Table? && over.Table?
  {
    && todo <= over.entries.Keys
    && acc.Keys == base.entries.Keys + (over.entries.Keys - todo)
    && forall k :: k in acc ==>
      acc[k] == if k in over.entries && k !in todo then Merge(base, over).entries[k] else base.entries[k]
  }

  lemma MergeStep(base: Value, over: Value, todo: set<string>, acc: map<string, Value>, k: string, merged: Value)
    requires base.Table? && over.Table? && PartlyMerged(base, over, todo, acc) && k in todo
    requires merged == if k in base.entries then Merge(base.entries[k], over.entries[k]) else over.entries[k]
    ensures PartlyMerged(base, over, todo - {k}, acc[k := merged])
  {
    assert merged == Merge(base, over).entries[k];
    hide Merge;
    assert acc[k := merged].Keys == base.entries.Keys + (over.entries.Keys - (todo - {k}));
  }

  lemma MergeEnds(base: Value, over: Value)
    requires base.Table? && over.Table?
    ensures PartlyMerged(base, over, over.entries.Keys, base.entries)
    ensures forall acc :: PartlyMerged(base, over, {}, acc) ==> Table(acc) == Merge(base, over)
  {
    forall acc | PartlyMerged(base, over, {}, acc)
      ensures acc == Merge(base, over).entries
    {
    }
  }

  /** `merge_toml`. */
  method MergeToml(base: Value, over: Value) returns (r: Value)
    ensures r == Merge(base, over)
    decreases over
  {
    if base.Leaf? || over.Leaf? {
      return over;
    }
    hide Merge;
    MergeEnds(base, over);
    var b := base.entries;
    var todo := over.entries.Keys;
    while todo != {}
      invariant PartlyMerged(base, over, todo, b)
      decreases |todo|
    {
      var k :| k in todo;
      var merged := over.entries[k];
      if k in b {
        merged := MergeToml(b[k], over.entries[k]);
      }
      MergeStep(base, over, todo, b, k, merged);
      b := b[k := merged];
      todo := todo - {k};
    }
    r := Table(b);
  }

  // ---- Looking a path up ----

  function Lookup(v: Value, path: seq<string>): Option<Value> {
    if path == [] then Some(v)
    else if v.Leaf? || path[0] !in v.entries then None
    else Lookup(v.entries[path[0]], path[1..])
  }

  /** A proper prefix of the path leads to something that is not a table. */
  predicate Blocks(v: Value, path: seq<string>) {
    path != [] && (v.Leaf? || (path[0] in v.entries && Blocks(v.entries[path[0]], path[1..])))
  }

  /** What a path leads to in a merged tree, in terms of the two trees. */
  lemma {:induction false} LookupMerged(a: Value, b: Value, path: seq<string>)
    ensures Lookup(Merge(a, b), path) ==
      if Blocks(b, path) then None
      else
        match (Lookup(a, path), Lookup(b, path))
        case (_, None) => Lookup(a, path)
        case (None, Some(over)) => Some(over)
        case (Some(base), Some(over)) => Some(Merge(base, over))
    decreases path
  {
    if path != [] && a.Table? && b.Table? {
      var k := path[0];
      if k in a.entries && k in b.entries {
        LookupMerged(a.entries[k], b.entries[k], path[1..]);
      } else if k in b.entries {
        BlockedHasNothing(b.entries[k], path[1..]);
      }
    } else {
      BlockedHasNothing(b, path);
    }
  }

  lemma {:induction false} BlockedHasNothing(v: Value, path: seq<string>)
    ensures Blocks(v, path) ==> Lookup(v, path) == None
    decreases path
  {
    if path != [] && v.Table? && path[0] in v.entries { BlockedHasNothing(v.entries[path[0]], path[1..]); }
  }

  // ---- Algebra ----

  /** The empty table is an identity on the left; on the right, exactly for tables. */
  lemma EmptyIsIdentity(v: Value)
    ensures Merge(Table(map[]), v) == v
    ensures Merge(v, Table(map[])) == v <==> v.Table?
  {
    if v.Table? {
      assert Merge(Table(map[]), v).entries == v.entries;
      assert Merge(v, Table(map[])).entries == v.entries;
    }
  }

  /** Merging a layer with itself changes nothing. */
  lemma {:induction false} MergeWithSelf(v: Value)
    ensures Merge(v, v) == v
  {
    if v.Table? {
      forall k | k in v.entries ensures Merge(v.entries[k], v.entries[k]) == v.entries[k] {
        MergeWithSelf(v.entries[k]);
      }
      assert Merge(v, v).entries == v.entries;
    }
  }

  /** `over` says something wherever `base` does. */
  predicate Covers(over: Value, base: Value)
    decreases over
  {
    over.Table? && base.Table? ==>
      forall k :: k in base.entries ==> k in over.entries && Covers(over.entries[k], base.entries[k])
  }

  /** A base shines through unless it is covered. */
  lemma {:induction false} CoveredIff(base: Value, over: Value)
    ensures Merge(base, over) == over <==> Covers(over, base)
    decreases over
  {
    if base.Table? && over.Table? {
      forall k | k in base.entries && k in over.entries
        ensures Merge(base.entries[k], over.entries[k]) == over.entries[k] <==> Covers(over.entries[k], base.entries[k])
      {
        CoveredIff(base.entries[k], over.entries[k]);
      }
      var m := Merge(base, over).entries;
      if Covers(over, base) {
        assert m == over.entries;
      } else {
        var k :| k in base.entries && !(k in over.entries && Covers(over.entries[k], base.entries[k]));
        assert k in m;
        assert k in over.entries ==> m[k] != over.entries[k];
      }
    }
  }

  /** The middle layer puts a non-table between two tables only where the last covers the first. */
  predicate Regroupable(a: Value, b: Value, c: Value)
    decreases c
  {
    a.Table? && c.Table? ==>
      if b.Leaf? then Covers(c, a)
      else
        forall k :: k in a.entries && k in b.entries && k in c.entries ==>
          Regroupable(a.entries[k], b.entries[k], c.entries[k])
  }

  /** Three layers can be merged in either grouping exactly when they are regroupable. */
  lemma {:induction false} RegroupIff(a: Value, b: Value, c: Value)
    ensures Merge(Merge(a, b), c) == Merge(a, Merge(b, c)) <==> Regroupable(a, b, c)
    decreases c
  {
    if a.Table? && c.Table? {
      if b.Leaf? {
        CoveredIff(a, c);
      } else {
        forall k | k in a.entries && k in b.entries && k in c.entries
          ensures Merge(Merge(a.entries[k], b.entries[k]), c.entries[k]) == Merge(a.entries[k], Merge(b.entries[k], c.entries[k]))
            <==> Regroupable(a.entries[k], b.entries[k], c.entries[k])
        {
          RegroupIff(a.entries[k], b.entries[k], c.entries[k]);
        }
        var l, r := Merge(Merge(a, b), c).entries, Merge(a, Merge(b, c)).entries;
        if Regroupable(a, b, c) {
          assert l == r;
        } else {
          var k :| k in a.entries && k in b.entries && k in c.entries && !Regroupable(a.entries[k], b.entries[k], c.entries[k]);
          assert l[k] != r[k];
        }
      }
    }
  }

  /** Regrouping is not always possible: a scalar hides what a later table would have been merged with. */
  lemma RegroupingCanDiffer()
    ensures var a, b, c := Table(map["x" := Leaf("1")]), Leaf("2"), Table(map["y" := Leaf("3")]);
      Merge(Merge(a, b), c) != Merge(a, Merge(b, c))
  {
    var a, b, c := Table(map["x" := Leaf("1")]), Leaf("2"), Table(map["y" := Leaf("3")]);
    RegroupIff(a, b, c);
    assert "x" in a.entries;
  }

  // ---- Layers ----

  function MergedLayers(layers: seq<Value>): Value {
    if layers == [] then Table(map[]) else Merge(MergedLayers(layers[..|layers| - 1]), layers[|layers| - 1])
  }

  /** `Loader::merged`. */
  method Merged(layers: seq<Value>) returns (acc: Value)
    ensures acc == MergedLayers(layers)
  {
    acc := Table(map[]);
    for i := 0 to |layers|
      invariant acc == MergedLayers(layers[..i])
    {
      assert layers[..i + 1][..i] == layers[..i];
      acc := MergeToml(acc, layers[i]);
    }
    assert layers[..|layers|] == layers;
  }

  /** A layer says something about a path. */
  predicate Mentions(v: Value, path: seq<string>) {
    Blocks(v, path) || Lookup(v, path).Some?
  }

  /** The last layer that mentions a path decides it, unless it has a table there. */
  lemma {:induction false} LastMentionDecides(layers: seq<Value>, path: seq<string>, i: nat)
    requires i < |layers| && Mentions(layers[i], path)
    requires forall j :: i < j < |layers| ==> !Mentions(layers[j], path)
    ensures Blocks(layers[i], path) ==> Lookup(MergedLayers(layers), path) == None
    ensures forall x :: Lookup(layers[i], path) == Some(Leaf(x)) ==> Lookup(MergedLayers(layers), path) == Some(Leaf(x))
    decreases |layers|
  {
    hide Merge, Lookup, Blocks;
    var init, last := layers[..|layers| - 1], layers[|layers| - 1];
    LookupMerged(MergedLayers(init), last, path);
    if i < |layers| - 1 {
      assert !Mentions(last, path);
      LastMentionDecides(init, path, i);
    } else {
      BlockedHasNothing(last, path);
      LeafWins();
    }
  }

  lemma LeafWins()
    ensures forall base, x :: Merge(base, Leaf(x)) == Leaf(x)
  {}

  /** A path no layer mentions is absent. */
  lemma {:induction false} UnmentionedIsAbsent(layers: seq<Value>, path: seq<string>)
    requires path != [] && forall j :: 0 <= j < |layers| ==> !Mentions(layers[j], path)
    ensures Lookup(MergedLayers(layers), path) == None
  {
    hide Merge;
    if layers != [] {
      var init, last := layers[..|layers| - 1], layers[|layers| - 1];
      UnmentionedIsAbsent(init, path);
      LookupMerged(MergedLayers(init), last, path);
      assert !Mentions(last, path);
    }
  }
}

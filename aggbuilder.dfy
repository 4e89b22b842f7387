/**
 * The aggregation composition of elastic/filter.go (`DefaultAggBuilder`):
 * the statistics of the requested fields, merged per nested scope, wrapped
 * inside-out in one bucket per grouping field with the nested and
 * reverse-nested transitions between scopes.
 *
 * The tree is specified as a list of layers applied to the statistics,
 * innermost first; `DefaultAggBuilder` is proved to build exactly
 * `Aggregation(group, stats, ext)`.
 */
module AggregationComposition {
  import opened Optional
  import opened Fragments
  import opened Aggregations
  import opened ScopeOrders

  /** The nesting scope the source takes for a field: the path `IsNestedField` reports, flag ignored. */
  function Scope(ext: Extend, f: Field): string
  {
    ext.isNestedField(f).0
  }

  // ---------------------------------------------------------------------
  // Phase 1: statistics.

  /** `f` contributes a root-level statistic under the key `k`. */
  predicate RootStat(ext: Extend, f: Field, k: string)
  {
    ext.statistics(f).Some? && !ext.isNestedField(f).1 && f.name == k
  }

  /** `f` contributes a statistic to the collection of nested scope `p`. */
  predicate NestedStat(ext: Extend, f: Field, p: string)
  {
    ext.statistics(f).Some? && ext.isNestedField(f).1 && ext.isNestedField(f).0 == p
  }

  /** The root-level statistics after the statistics loop has seen `stats`. */
  function RootStats(ext: Extend, stats: seq<Field>): AggMap
  {
    if stats == [] then map[]
    else
      var f := stats[|stats| - 1];
      var m := RootStats(ext, stats[..|stats| - 1]);
      var a := ext.statistics(f);
      if a.Some? && !ext.isNestedField(f).1 then m[f.name := a.value] else m
  }

  /** The per-scope statistics collections after the statistics loop has seen `stats`. */
  function NestedStats(ext: Extend, stats: seq<Field>): map<string, AggMap>
  {
    if stats == [] then map[]
    else
      var f := stats[|stats| - 1];
      var m := NestedStats(ext, stats[..|stats| - 1]);
      var a := ext.statistics(f);
      var (p, nested) := ext.isNestedField(f);
      if a.Some? && nested then m[p := (if p in m then m[p] else map[])[f.name := a.value]] else m
  }

  /** The root statistics with the collections of the scopes in `done` inserted as nested aggregations. */
  function MergeNested(root: AggMap, nested: map<string, AggMap>, done: set<string>): AggMap
    requires done <= nested.Keys
  {
    map k | k in root.Keys + done :: if k in done then NestedAgg(k, nested[k]) else root[k]
  }

  /** The aggregation mapping phase 1 produces. */
  function StatsAggs(ext: Extend, stats: seq<Field>): AggMap
  {
    MergeNested(RootStats(ext, stats), NestedStats(ext, stats), NestedStats(ext, stats).Keys)
  }

  // ---------------------------------------------------------------------
  // Phase 2: grouping.

  /** The scope of each grouping field, by position. */
  function Scopes(ext: Extend, group: seq<Field>): seq<string>
  {
    seq(|group|, k requires 0 <= k < |group| => Scope(ext, group[k]))
  }

  /** The entry for `p`; a missing entry reads as the empty list, as a nil slice does. */
  function Lookup(m: map<string, seq<Field>>, p: string): seq<Field>
  {
    if p in m then m[p] else []
  }

  /** `groupFields` after the grouping loop has appended group[|group|-1] .. group[i]. */
  function GroupFields(ext: Extend, group: seq<Field>, i: nat): map<string, seq<Field>>
    requires i <= |group|
    decreases |group| - i
  {
    if i == |group| then map[]
    else
      var m := GroupFields(ext, group, i + 1);
      var p := Scope(ext, group[i]);
      m[p := Lookup(m, p) + [group[i]]]
  }

  /** The fields of `fs` whose scope is `p`, in order. */
  function InScope(ext: Extend, fs: seq<Field>, p: string): seq<Field>
  {
    if fs == [] then []
    else (if Scope(ext, fs[0]) == p then [fs[0]] else []) + InScope(ext, fs[1..], p)
  }

  function Reverse<T>(s: seq<T>): seq<T>
  {
    if s == [] then [] else Reverse(s[1..]) + [s[0]]
  }

  /** The scope names of the ordering list after the grouping loop, innermost first. */
  function OrderNames(ext: Extend, group: seq<Field>): seq<string>
  {
    Names(OrdersFrom(Scopes(ext, group), 0))
  }

  /** One wrapping step of the tree; a layer applies to the aggregations it encloses. */
  datatype Layer =
    | GroupLayer(field: Field)                 // NamedAgg(f.Name(), extend.Group(f, ·))
    | NestedLayer(path: string)                // NamedAgg(p, NestedAgg(p, ·))
    | ReverseLayer(key: string, path: string)  // NamedAgg(key, ReverseNestedAgg(p, ·))

  function ApplyLayer(l: Layer, m: AggMap): AggMap
  {
    match l
    case GroupLayer(f) => NamedAgg(f.name, GroupBucket(f, m))
    case NestedLayer(p) => NamedAgg(p, NestedAgg(p, m))
    case ReverseLayer(key, p) => NamedAgg(key, ReverseNestedAgg(p, m))
  }

  /** The layers applied to `m`, innermost (first) to outermost (last). */
  function Apply(layers: seq<Layer>, m: AggMap): AggMap
  {
    if layers == [] then m else ApplyLayer(layers[|layers| - 1], Apply(layers[..|layers| - 1], m))
  }

  function GroupLayers(fs: seq<Field>): seq<Layer>
  {
    seq(|fs|, k requires 0 <= k < |fs| => GroupLayer(fs[k]))
  }

  /** The join back to the root that precedes everything when the innermost scope is nested. */
  function EnterLayers(names: seq<string>, i: nat): seq<Layer>
    requires i < |names|
  {
    if i == 0 && names[0] != "" then [ReverseLayer(Item, "")] else []
  }

  /** The scope transition after the buckets of order entry i. */
  function TransitionLayers(names: seq<string>, i: nat): seq<Layer>
    requires i < |names|
  {
    if names[i] == "" then
      (if i != |names| - 1 then [ReverseLayer(Item, "")] else [])
    else if i == |names| - 1 || names[i + 1] == "" then [NestedLayer(names[i])]
    else [ReverseLayer(names[i], names[i])]
  }

  /** What iteration i of the emitting loop wraps around the tree. */
  function StepLayers(names: seq<string>, gf: map<string, seq<Field>>, i: nat): seq<Layer>
    requires i < |names|
  {
    EnterLayers(names, i) + GroupLayers(Lookup(gf, names[i])) + TransitionLayers(names, i)
  }

  function LayersUpTo(names: seq<string>, gf: map<string, seq<Field>>, n: nat): seq<Layer>
    requires n <= |names|
  {
    if n == 0 then [] else LayersUpTo(names, gf, n - 1) + StepLayers(names, gf, n - 1)
  }

  /** All layers the grouping phase wraps around the statistics. */
  function GroupingLayers(ext: Extend, group: seq<Field>): seq<Layer>
  {
    var names := OrderNames(ext, group);
    LayersUpTo(names, GroupFields(ext, group, 0), |names|)
  }

  /** The returned field name: the first field listed for the first order entry, "" without grouping. */
  function BucketField(ext: Extend, group: seq<Field>): string
  {
    var gf := GroupFields(ext, group, 0);
    if |gf| > 0 then
      var names := OrderNames(ext, group);
      BucketFieldDefined(ext, group);
      Lookup(gf, names[0])[0].name
    else ""
  }

  /** What `DefaultAggBuilder` computes: no aggregation without statistics. */
  function Aggregation(group: seq<Field>, stats: seq<Field>, ext: Extend): (Option<AggMap>, string)
  {
    if |stats| == 0 then (None, "")
    else (Some(Apply(GroupingLayers(ext, group), StatsAggs(ext, stats))), BucketField(ext, group))
  }

  // ---------------------------------------------------------------------
  // The builder.

  /** `DefaultAggBuilder`: the three phases of the source in order. */
  method DefaultAggBuilder(group: seq<Field>, stats: seq<Field>, ext: Extend) returns (agg: Option<AggMap>, lastField: string)
    ensures (agg, lastField) == Aggregation(group, stats, ext)
    ensures agg.None? <==> |stats| == 0
    ensures |group| == 0 ==> lastField == ""
  {
    if |stats| == 0 {
      return None, "";
    }
    lastField := "";
    var resultAgg := CollectStatistics(stats, ext);
    var groupFields, orders := CollectGroups(group, ext);
    resultAgg := WrapGroups(orders, groupFields, OrderNames(ext, group), resultAgg);
    if |groupFields| > 0 {
      BucketFieldDefined(ext, group);
      lastField := Lookup(groupFields, orders.Get(0).value.name)[0].name;
    }
    return Some(resultAgg), lastField;
  }

  /** Phase 1 of `DefaultAggBuilder` (the statistics loop and the nested merge). */
  method CollectStatistics(stats: seq<Field>, ext: Extend) returns (resultAgg: AggMap)
    ensures resultAgg == StatsAggs(ext, stats)
  {
    resultAgg := map[];
    var nestedAgg: map<string, AggMap> := map[];
    for k := 0 to |stats|
      invariant resultAgg == RootStats(ext, stats[..k])
      invariant nestedAgg == NestedStats(ext, stats[..k])
    {
      assert stats[..k + 1][..k] == stats[..k];
      var field := stats[k];
      var a := ext.statistics(field);
      if a.Some? {
        var (parent, isNested) := ext.isNestedField(field);
        if isNested {
          var subs := if parent in nestedAgg then nestedAgg[parent] else map[];
          nestedAgg := nestedAgg[parent := subs[field.name := a.value]];
        } else {
          resultAgg := resultAgg[field.name := a.value];
        }
      }
    }
    assert stats[..|stats|] == stats;
    var keys := nestedAgg.Keys;
    while keys != {}
      invariant keys <= nestedAgg.Keys
      invariant resultAgg == MergeNested(RootStats(ext, stats), nestedAgg, nestedAgg.Keys - keys)
      decreases keys
    {
      var k :| k in keys;
      resultAgg := resultAgg[k := NestedAgg(k, nestedAgg[k])];
      keys := keys - {k};
    }
    assert nestedAgg.Keys - keys == nestedAgg.Keys;
  }

  /** Phase 2 of `DefaultAggBuilder`: the grouping loop, from the last field to the first. */
  method CollectGroups(group: seq<Field>, ext: Extend) returns (groupFields: map<string, seq<Field>>, orders: FieldOrders)
    ensures fresh(orders) && orders.Valid()
    ensures groupFields == GroupFields(ext, group, 0)
    ensures orders.records == OrdersFrom(Scopes(ext, group), 0)
  {
    orders := new FieldOrders();
    groupFields := map[];
    ghost var parents := Scopes(ext, group);
    var i := |group|;
    while i > 0
      invariant 0 <= i <= |group|
      invariant groupFields == GroupFields(ext, group, i)
      invariant orders.Valid() && orders.records == OrdersFrom(parents, i)
    {
      i := i - 1;
      var field := group[i];
      var (parent, _) := ext.isNestedField(field);
      groupFields := groupFields[parent := Lookup(groupFields, parent) + [field]];
      orders.Append(parent, i);
      AppendStep(parents, i, orders.records);
    }
  }

  /** Phase 3 of `DefaultAggBuilder`: the emitting loop over the ordering list, innermost entry first. */
  method WrapGroups(orders: FieldOrders, groupFields: map<string, seq<Field>>, ghost names: seq<string>, base: AggMap)
    returns (resultAgg: AggMap)
    requires Names(orders.records) == names
    ensures resultAgg == Apply(LayersUpTo(names, groupFields, |names|), base)
  {
    resultAgg := base;
    var n := orders.Len();
    for j := 0 to n
      invariant resultAgg == Apply(LayersUpTo(names, groupFields, j), base)
    {
      UpToApply(names, groupFields, j, base);
      resultAgg := WrapStep(orders, groupFields, names, j, resultAgg);
    }
  }

  /** One iteration of the emitting loop (lines 133-151). */
  method WrapStep(orders: FieldOrders, groupFields: map<string, seq<Field>>, ghost names: seq<string>, j: nat, agg: AggMap)
    returns (resultAgg: AggMap)
    requires Names(orders.records) == names && j < |names|
    ensures resultAgg == Apply(StepLayers(names, groupFields, j), agg)
  {
    var order := orders.records[j];
    assert order.name == names[j];
    resultAgg := agg;
    if j == 0 && order.name != "" {
      resultAgg := NamedAgg(Item, ReverseNestedAgg("", resultAgg));
    }
    ApplySingle(EnterLayers(names, j), agg);
    resultAgg := WrapBuckets(Lookup(groupFields, order.name), resultAgg);
    resultAgg := WrapTransition(orders, names, j, resultAgg);
    StepApply(names, groupFields, j, agg);
  }

  /** Lines 136-138: one bucket per field of the current scope, in list order. */
  method WrapBuckets(fs: seq<Field>, agg: AggMap) returns (resultAgg: AggMap)
    ensures resultAgg == Apply(GroupLayers(fs), agg)
  {
    resultAgg := agg;
    for k := 0 to |fs|
      invariant resultAgg == Apply(GroupLayers(fs[..k]), agg)
    {
      GroupLayersSnoc(fs, k);
      ApplySnoc(GroupLayers(fs[..k]), GroupLayer(fs[k]), agg);
      resultAgg := NamedAgg(fs[k].name, GroupBucket(fs[k], resultAgg));
    }
    assert fs[..|fs|] == fs;
  }

  /** Lines 140-151: the scope transition after the buckets of order entry j. */
  method WrapTransition(orders: FieldOrders, ghost names: seq<string>, j: nat, agg: AggMap) returns (resultAgg: AggMap)
    requires Names(orders.records) == names && j < |names|
    ensures resultAgg == Apply(TransitionLayers(names, j), agg)
  {
    var order := orders.records[j];
    var n := orders.Len();
    assert order.name == names[j];
    assert j + 1 < n ==> orders.records[j + 1].name == names[j + 1];
    ApplySingle(TransitionLayers(names, j), agg);
    resultAgg := agg;
    if order.name == "" {
      if j != n - 1 {
        resultAgg := NamedAgg(Item, ReverseNestedAgg("", resultAgg));
      }
    } else {
      if j == n - 1 || orders.Get(j + 1).value.name == "" {
        resultAgg := NamedAgg(order.name, NestedAgg(order.name, resultAgg));
      } else {
        resultAgg := NamedAgg(order.name, ReverseNestedAgg(order.name, resultAgg));
      }
    }
  }

  // ---------------------------------------------------------------------
  // Lemmas the builder and the specification need.

  lemma ApplySnoc(layers: seq<Layer>, l: Layer, m: AggMap)
    ensures Apply(layers + [l], m) == ApplyLayer(l, Apply(layers, m))
  {
    assert (layers + [l])[..|layers|] == layers;
  }

  lemma ApplySingle(layers: seq<Layer>, m: AggMap)
    requires |layers| <= 1
    ensures Apply(layers, m) == if layers == [] then m else ApplyLayer(layers[0], m)
  {
    if layers != [] {
      assert layers[..0] == [];
    }
  }

  lemma GroupLayersSnoc(fs: seq<Field>, k: nat)
    requires k < |fs|
    ensures GroupLayers(fs[..k + 1]) == GroupLayers(fs[..k]) + [GroupLayer(fs[k])]
  {
    var a := GroupLayers(fs[..k + 1]);
    var b := GroupLayers(fs[..k]) + [GroupLayer(fs[k])];
    assert |a| == |b|;
    forall x | 0 <= x < |a| ensures a[x] == b[x] {
      assert fs[..k + 1][x] == fs[x];
    }
  }

  /** One iteration of the emitting loop: the join, the buckets, then the transition. */
  lemma StepApply(names: seq<string>, gf: map<string, seq<Field>>, i: nat, m: AggMap)
    requires i < |names|
    ensures Apply(StepLayers(names, gf, i), m) ==
      Apply(TransitionLayers(names, i), Apply(GroupLayers(Lookup(gf, names[i])), Apply(EnterLayers(names, i), m)))
  {
    var e, g, t := EnterLayers(names, i), GroupLayers(Lookup(gf, names[i])), TransitionLayers(names, i);
    ApplyAppend(e, g, m);
    ApplyAppend(e + g, t, m);
  }

  lemma UpToApply(names: seq<string>, gf: map<string, seq<Field>>, j: nat, m: AggMap)
    requires j < |names|
    ensures Apply(LayersUpTo(names, gf, j + 1), m) == Apply(StepLayers(names, gf, j), Apply(LayersUpTo(names, gf, j), m))
  {
    ApplyAppend(LayersUpTo(names, gf, j), StepLayers(names, gf, j), m);
  }

  /** Applying two layer lists in turn is applying their concatenation. */
  lemma {:induction false} ApplyAppend(a: seq<Layer>, b: seq<Layer>, m: AggMap)
    ensures Apply(a + b, m) == Apply(b, Apply(a, m))
  {
    if b == [] {
      assert a + b == a;
    } else {
      var b' := b[..|b| - 1];
      assert (a + b)[..|a + b| - 1] == a + b';
      assert (a + b)[|a + b| - 1] == b[|b| - 1];
      ApplyAppend(a, b', m);
    }
  }

  /** A field is listed for scope p exactly when it has scope p; the list runs from the last such field back. */
  lemma {:induction false} GroupFieldsAre(ext: Extend, group: seq<Field>, i: nat, p: string)
    requires i <= |group|
    decreases |group| - i
    ensures Lookup(GroupFields(ext, group, i), p) == Reverse(InScope(ext, group[i..], p))
    ensures p in GroupFields(ext, group, i) <==> exists j :: i <= j < |group| && Scope(ext, group[j]) == p
  {
    if i == |group| {
      assert group[i..] == [];
    } else {
      GroupFieldsAre(ext, group, i + 1, p);
      var rest := group[i + 1..];
      assert group[i..] == [group[i]] + rest;
      assert group[i..][1..] == rest;
      var s := InScope(ext, rest, p);
      if Scope(ext, group[i]) == p {
        assert InScope(ext, group[i..], p) == [group[i]] + s;
        assert ([group[i]] + s)[1..] == s;
        assert Reverse([group[i]] + s) == Reverse(s) + [group[i]];
      } else {
        assert InScope(ext, group[i..], p) == [] + s;
        assert [] + s == s;
      }
    }
  }

  lemma {:induction false} InScopeMembers(ext: Extend, fs: seq<Field>, p: string)
    ensures forall f :: f in InScope(ext, fs, p) <==> f in fs && Scope(ext, f) == p
  {
    if fs != [] {
      InScopeMembers(ext, fs[1..], p);
      assert fs == [fs[0]] + fs[1..];
    }
  }

  /** Filtering by scope keeps each field's multiplicity when the scope matches and drops it otherwise. */
  lemma {:induction false} InScopeCount(ext: Extend, fs: seq<Field>, p: string, f: Field)
    ensures multiset(InScope(ext, fs, p))[f] == if Scope(ext, f) == p then multiset(fs)[f] else 0
  {
    if fs != [] {
      InScopeCount(ext, fs[1..], p, f);
      assert fs == [fs[0]] + fs[1..];
    }
  }

  lemma {:induction false} ReverseMultiset<T>(s: seq<T>)
    ensures |Reverse(s)| == |s| && multiset(Reverse(s)) == multiset(s)
  {
    if s != [] {
      ReverseMultiset(s[1..]);
      assert s == [s[0]] + s[1..];
    }
  }

  lemma {:induction false} ReverseFirst<T>(s: seq<T>)
    requires s != []
    ensures Reverse(s) != [] && Reverse(s)[0] == s[|s| - 1]
  {
    if |s| > 1 {
      ReverseFirst(s[1..]);
    }
  }

  /** The last field of `fs` in scope p is the one with the highest index. */
  lemma {:induction false} InScopeLast(ext: Extend, fs: seq<Field>, p: string) returns (j: nat)
    requires InScope(ext, fs, p) != []
    ensures j < |fs| && Scope(ext, fs[j]) == p
    ensures InScope(ext, fs, p)[|InScope(ext, fs, p)| - 1] == fs[j]
    ensures forall j' :: j < j' < |fs| ==> Scope(ext, fs[j']) != p
  {
    var s := InScope(ext, fs[1..], p);
    if s != [] {
      var j0 := InScopeLast(ext, fs[1..], p);
      j := j0 + 1;
    } else {
      j := 0;
      InScopeMembers(ext, fs[1..], p);
      forall j' | 0 < j' < |fs| ensures Scope(ext, fs[j']) != p {
        assert fs[j'] == fs[1..][j' - 1];
      }
    }
  }

  /** A scope is among the order names exactly when some grouping field lies in it. */
  lemma OrderNamesMembers(ext: Extend, group: seq<Field>, p: string)
    ensures p in OrderNames(ext, group) <==> exists j :: 0 <= j < |group| && Scope(ext, group[j]) == p
  {
    var parents := Scopes(ext, group);
    var o := OrdersFrom(parents, 0);
    var names := OrderNames(ext, group);
    if p in names {
      var k :| 0 <= k < |names| && names[k] == p;
      assert o[k] in o;
      OrdersFromPositions(parents, 0);
      assert parents[o[k].pos] == p;
    }
    if exists j :: 0 <= j < |group| && Scope(ext, group[j]) == p {
      var j :| 0 <= j < |group| && Scope(ext, group[j]) == p;
      assert parents[j] == p;
      OrdersFromCovers(parents, 0);
      var k :| 0 <= k < |o| && o[k].name == parents[j];
      assert names[k] == p;
    }
  }

  /** The outermost (last) order name is the scope of the first grouping field. */
  lemma OrderNamesLast(ext: Extend, group: seq<Field>)
    requires |group| > 0
    ensures |OrderNames(ext, group)| > 0 && OrderNames(ext, group)[|OrderNames(ext, group)| - 1] == Scope(ext, group[0])
  {
    var parents := Scopes(ext, group);
    assert OrdersFrom(parents, 0) == Remove(OrdersFrom(parents, 1), parents[0]) + [FieldOrder(parents[0], 0)];
  }

  /** The shape of the ordering names: unique, exactly the scopes used, the first field's scope last. */
  lemma OrderNamesShape(ext: Extend, group: seq<Field>)
    ensures forall a, b :: 0 <= a < b < |OrderNames(ext, group)| ==> OrderNames(ext, group)[a] != OrderNames(ext, group)[b]
    ensures forall p :: p in OrderNames(ext, group) <==> exists j :: 0 <= j < |group| && Scope(ext, group[j]) == p
    ensures |group| > 0 ==> |OrderNames(ext, group)| > 0 && OrderNames(ext, group)[|OrderNames(ext, group)| - 1] == Scope(ext, group[0])
  {
    OrdersFromShape(Scopes(ext, group), 0);
    forall p {
      OrderNamesMembers(ext, group, p);
    }
    if |group| > 0 {
      OrderNamesLast(ext, group);
    }
  }

  /** With grouping, the ordering list is non-empty and its first entry has fields listed. */
  lemma BucketFieldDefined(ext: Extend, group: seq<Field>)
    requires |GroupFields(ext, group, 0)| > 0
    ensures |OrderNames(ext, group)| > 0 && |OrdersFrom(Scopes(ext, group), 0)| > 0
    ensures |Lookup(GroupFields(ext, group, 0), OrderNames(ext, group)[0])| > 0
  {
    var gf := GroupFields(ext, group, 0);
    var key :| key in gf.Keys;
    GroupFieldsAre(ext, group, 0, key);
    OrderNamesShape(ext, group);
    var names := OrderNames(ext, group);
    assert names[0] in names;
    var j :| 0 <= j < |group| && Scope(ext, group[j]) == names[0];
    GroupFieldsAre(ext, group, 0, names[0]);
    InScopeMembers(ext, group, names[0]);
    assert group[0..] == group;
    assert group[j] in InScope(ext, group, names[0]);
    ReverseMultiset(InScope(ext, group, names[0]));
  }
}

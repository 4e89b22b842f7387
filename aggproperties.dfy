/**
 * Properties of the aggregation tree `DefaultAggBuilder` builds: which
 * statistics it holds, that every grouping field gets exactly one bucket,
 * which field it reports, and when the nested/reverse-nested transitions
 * are well scoped.
 */
module AggregationProperties {
  import opened Optional
  import opened Fragments
  import opened Aggregations
  import opened ScopeOrders
  import opened AggregationComposition

  // ---------------------------------------------------------------------
  // Statistics.

  /** One more field: how the root statistics change. */
  lemma RootStatsStep(ext: Extend, stats: seq<Field>, k: string)
    requires stats != []
    ensures var m, m' := RootStats(ext, stats[..|stats| - 1]), RootStats(ext, stats);
      && (k in m' <==> k in m || RootStat(ext, stats[|stats| - 1], k))
      && (RootStat(ext, stats[|stats| - 1], k) ==> k in m' && m'[k] == ext.statistics(stats[|stats| - 1]).value)
      && (!RootStat(ext, stats[|stats| - 1], k) && k in m ==> k in m' && m'[k] == m[k])
  {
  }

  /** A field that yields the root statistic `k` puts `k` among the root statistics. */
  lemma {:induction false} RootStatPresent(ext: Extend, stats: seq<Field>, k: string, j: nat)
    requires j < |stats| && RootStat(ext, stats[j], k)
    ensures k in RootStats(ext, stats)
  {
    var last := |stats| - 1;
    var init := stats[..last];
    RootStatsStep(ext, stats, k);
    if j < last {
      assert init[j] == stats[j];
      RootStatPresent(ext, init, k, j);
    }
  }

  /** A root statistic `k` holds the statistic of the last field `j` that yields it. */
  lemma {:induction false} RootStatLast(ext: Extend, stats: seq<Field>, k: string) returns (j: nat)
    requires k in RootStats(ext, stats)
    ensures j < |stats| && RootStat(ext, stats[j], k)
    ensures RootStats(ext, stats)[k] == ext.statistics(stats[j]).value
    ensures forall j' :: j < j' < |stats| ==> !RootStat(ext, stats[j'], k)
  {
    var last := |stats| - 1;
    var init := stats[..last];
    RootStatsStep(ext, stats, k);
    if RootStat(ext, stats[last], k) {
      j := last;
    } else {
      j := RootStatLast(ext, init, k);
      assert forall i :: 0 <= i < last ==> init[i] == stats[i];
    }
  }

  /** `f` contributes the statistic named `k` to the collection of scope `p`. */
  predicate NestedStatNamed(ext: Extend, f: Field, p: string, k: string)
  {
    NestedStat(ext, f, p) && f.name == k
  }

  /** One more field: how the nested collections change. */
  lemma NestedStatsStep(ext: Extend, stats: seq<Field>, p: string, k: string)
    requires stats != []
    ensures var m, m' := NestedStats(ext, stats[..|stats| - 1]), NestedStats(ext, stats);
      && (p in m' <==> p in m || NestedStat(ext, stats[|stats| - 1], p))
      && ((p in m' && k in m'[p]) <==> (p in m && k in m[p]) || NestedStatNamed(ext, stats[|stats| - 1], p, k))
      && (NestedStatNamed(ext, stats[|stats| - 1], p, k) ==>
            p in m' && k in m'[p] && m'[p][k] == ext.statistics(stats[|stats| - 1]).value)
      && (!NestedStatNamed(ext, stats[|stats| - 1], p, k) && p in m && k in m[p] ==>
            p in m' && k in m'[p] && m'[p][k] == m[p][k])
  {
  }

  /** A scope has a collection exactly when one of its fields yields a statistic. */
  lemma {:induction false} NestedScopePresent(ext: Extend, stats: seq<Field>, p: string)
    ensures p in NestedStats(ext, stats) <==> exists j :: 0 <= j < |stats| && NestedStat(ext, stats[j], p)
  {
    if stats != [] {
      var last := |stats| - 1;
      var init := stats[..last];
      assert p in NestedStats(ext, init) <==> exists j :: 0 <= j < |init| && NestedStat(ext, init[j], p) by {
        NestedScopePresent(ext, init, p);
      }
      assert p in NestedStats(ext, stats) <==> p in NestedStats(ext, init) || NestedStat(ext, stats[last], p) by {
        NestedStatsStep(ext, stats, p, "");
      }
      assert forall j :: 0 <= j < last ==> init[j] == stats[j];
      if exists j :: 0 <= j < |stats| && NestedStat(ext, stats[j], p) {
        var j :| 0 <= j < |stats| && NestedStat(ext, stats[j], p);
        if j < last {
          assert NestedStat(ext, init[j], p);
        }
      }
    }
  }

  /** A field that yields statistic `k` for scope `p` puts `k` into that scope's collection. */
  lemma {:induction false} NestedStatPresent(ext: Extend, stats: seq<Field>, p: string, k: string, j: nat)
    requires j < |stats| && NestedStatNamed(ext, stats[j], p, k)
    ensures p in NestedStats(ext, stats) && k in NestedStats(ext, stats)[p]
  {
    var last := |stats| - 1;
    var init := stats[..last];
    NestedStatsStep(ext, stats, p, k);
    if j < last {
      assert init[j] == stats[j];
      NestedStatPresent(ext, init, p, k, j);
    }
  }

  /** Statistic `k` of scope `p` holds the statistic of the last field `j` that yields it. */
  lemma {:induction false} NestedStatLast(ext: Extend, stats: seq<Field>, p: string, k: string) returns (j: nat)
    requires p in NestedStats(ext, stats) && k in NestedStats(ext, stats)[p]
    ensures j < |stats| && NestedStatNamed(ext, stats[j], p, k)
    ensures NestedStats(ext, stats)[p][k] == ext.statistics(stats[j]).value
    ensures forall j' :: j < j' < |stats| ==> !NestedStatNamed(ext, stats[j'], p, k)
  {
    var last := |stats| - 1;
    var init := stats[..last];
    NestedStatsStep(ext, stats, p, k);
    if NestedStatNamed(ext, stats[last], p, k) {
      j := last;
    } else {
      j := NestedStatLast(ext, init, p, k);
      assert forall i :: 0 <= i < last ==> init[i] == stats[i];
    }
  }

  /**
   * The statistics phase: a key is present exactly when a root field of
   * that name or a nested field of that scope yields a statistic; a nested
   * scope's collection takes the key over from a root statistic of the same
   * name; otherwise the key holds the last root field's statistic.
   */
  lemma StatsAggsEntries(ext: Extend, stats: seq<Field>, k: string)
    ensures k in StatsAggs(ext, stats) <==>
      (exists j :: 0 <= j < |stats| && RootStat(ext, stats[j], k)) ||
      (exists j :: 0 <= j < |stats| && NestedStat(ext, stats[j], k))
    ensures (exists j :: 0 <= j < |stats| && NestedStat(ext, stats[j], k)) ==>
      k in NestedStats(ext, stats) && k in StatsAggs(ext, stats) &&
      StatsAggs(ext, stats)[k] == NestedAgg(k, NestedStats(ext, stats)[k])
    ensures (forall j :: 0 <= j < |stats| ==> !NestedStat(ext, stats[j], k)) && k in StatsAggs(ext, stats) ==>
      k in RootStats(ext, stats) &&
      exists j ::
        && 0 <= j < |stats| && RootStat(ext, stats[j], k)
        && StatsAggs(ext, stats)[k] == ext.statistics(stats[j]).value
        && forall j' :: j < j' < |stats| ==> !RootStat(ext, stats[j'], k)
  {
    NestedScopePresent(ext, stats, k);
    if k in RootStats(ext, stats) {
      var j := RootStatLast(ext, stats, k);
    }
    if exists j :: 0 <= j < |stats| && RootStat(ext, stats[j], k) {
      var j :| 0 <= j < |stats| && RootStat(ext, stats[j], k);
      RootStatPresent(ext, stats, k, j);
    }
  }

  // ---------------------------------------------------------------------
  // Every grouping field gets exactly one bucket.

  /** The fields of the group layers, innermost first. */
  function GroupsOf(layers: seq<Layer>): seq<Field>
  {
    if layers == [] then []
    else
      var l := layers[|layers| - 1];
      GroupsOf(layers[..|layers| - 1]) + (if l.GroupLayer? then [l.field] else [])
  }

  lemma {:induction false} GroupsOfAppend(a: seq<Layer>, b: seq<Layer>)
    ensures GroupsOf(a + b) == GroupsOf(a) + GroupsOf(b)
  {
    if b == [] {
      assert a + b == a;
    } else {
      var b' := b[..|b| - 1];
      assert (a + b)[..|a + b| - 1] == a + b';
      assert (a + b)[|a + b| - 1] == b[|b| - 1];
      GroupsOfAppend(a, b');
    }
  }

  lemma {:induction false} GroupsOfGroupLayers(fs: seq<Field>)
    ensures GroupsOf(GroupLayers(fs)) == fs
  {
    if fs != [] {
      var k := |fs| - 1;
      GroupLayersSnoc(fs, k);
      assert fs[..k + 1] == fs;
      GroupsOfGroupLayers(fs[..k]);
      assert (GroupLayers(fs[..k]) + [GroupLayer(fs[k])])[..k] == GroupLayers(fs[..k]);
    }
  }

  lemma GroupsOfStep(names: seq<string>, gf: map<string, seq<Field>>, i: nat)
    requires i < |names|
    ensures GroupsOf(StepLayers(names, gf, i)) == Lookup(gf, names[i])
  {
    var e, g, t := EnterLayers(names, i), GroupLayers(Lookup(gf, names[i])), TransitionLayers(names, i);
    GroupsOfAppend(e + g, t);
    GroupsOfAppend(e, g);
    GroupsOfGroupLayers(Lookup(gf, names[i]));
    if e != [] { assert e[..0] == []; }
    if t != [] { assert t[..0] == []; }
  }

  /** Every field listed for scope p lies in scope p. */
  predicate FieldsInScope(ext: Extend, gf: map<string, seq<Field>>, p: string)
  {
    forall f :: f in Lookup(gf, p) ==> Scope(ext, f) == p
  }

  /** The hypotheses the grouping phase establishes about its names and lists. */
  predicate WellFormedGrouping(ext: Extend, names: seq<string>, gf: map<string, seq<Field>>)
  {
    (forall a, b :: 0 <= a < b < |names| ==> names[a] != names[b]) &&
    (forall i :: 0 <= i < |names| ==> FieldsInScope(ext, gf, names[i]))
  }

  /** The grouping fields of the first n order entries, scope by scope. */
  function FieldsUpTo(names: seq<string>, gf: map<string, seq<Field>>, n: nat): seq<Field>
    requires n <= |names|
  {
    if n == 0 then [] else FieldsUpTo(names, gf, n - 1) + Lookup(gf, names[n - 1])
  }

  /** The buckets of the first n order entries are exactly those fields, in that order. */
  lemma {:induction false} GroupsOfUpTo(names: seq<string>, gf: map<string, seq<Field>>, n: nat)
    requires n <= |names|
    ensures GroupsOf(LayersUpTo(names, gf, n)) == FieldsUpTo(names, gf, n)
  {
    if n == 0 {
      assert LayersUpTo(names, gf, 0) == [];
    } else {
      var prev := LayersUpTo(names, gf, n - 1);
      var step := StepLayers(names, gf, n - 1);
      assert GroupsOf(prev) == FieldsUpTo(names, gf, n - 1) by {
        GroupsOfUpTo(names, gf, n - 1);
      }
      assert GroupsOf(step) == Lookup(gf, names[n - 1]) by {
        GroupsOfStep(names, gf, n - 1);
      }
      assert GroupsOf(prev + step) == GroupsOf(prev) + GroupsOf(step) by {
        GroupsOfAppend(prev, step);
      }
    }
  }

  /** No occurrence of `f` among the first n entries' fields when none of them is scope p. */
  lemma {:induction false} CountAbsent(names: seq<string>, gf: map<string, seq<Field>>, n: nat, f: Field, p: string)
    requires n <= |names|
    requires forall i :: 0 <= i < |names| && names[i] != p ==> f !in Lookup(gf, names[i])
    requires forall i :: 0 <= i < n ==> names[i] != p
    ensures multiset(FieldsUpTo(names, gf, n))[f] == 0
  {
    if n > 0 {
      CountAbsent(names, gf, n - 1, f, p);
      assert f !in Lookup(gf, names[n - 1]);
    }
  }

  /** Once scope p (entry k) is among the first n entries, `f` occurs as often as p lists it. */
  lemma {:induction false} CountPresent(names: seq<string>, gf: map<string, seq<Field>>, n: nat, f: Field, p: string, k: nat)
    requires k < n <= |names| && names[k] == p
    requires forall a, b :: 0 <= a < b < |names| ==> names[a] != names[b]
    requires forall i :: 0 <= i < |names| && names[i] != p ==> f !in Lookup(gf, names[i])
    ensures multiset(FieldsUpTo(names, gf, n))[f] == multiset(Lookup(gf, p))[f]
  {
    if k == n - 1 {
      assert forall i :: 0 <= i < n - 1 ==> names[i] != p;
      CountAbsent(names, gf, n - 1, f, p);
    } else {
      CountPresent(names, gf, n - 1, f, p, k);
      assert names[n - 1] != p by {
        assert names[k] != names[n - 1];
      }
      assert f !in Lookup(gf, names[n - 1]);
    }
  }

  lemma GroupingWellFormed(ext: Extend, group: seq<Field>)
    ensures WellFormedGrouping(ext, OrderNames(ext, group), GroupFields(ext, group, 0))
  {
    var names := OrderNames(ext, group);
    var gf := GroupFields(ext, group, 0);
    OrderNamesShape(ext, group);
    assert group[0..] == group;
    forall i | 0 <= i < |names| ensures FieldsInScope(ext, gf, names[i]) {
      var sc := InScope(ext, group, names[i]);
      GroupFieldsAre(ext, group, 0, names[i]);
      assert Lookup(gf, names[i]) == Reverse(sc);
      ReverseMultiset(sc);
      InScopeMembers(ext, group, names[i]);
      forall f | f in Lookup(gf, names[i]) ensures Scope(ext, f) == names[i] {
        assert f in multiset(Reverse(sc));
        assert f in sc;
      }
    }
  }

  lemma GroupFieldCount(ext: Extend, group: seq<Field>, f: Field)
    ensures multiset(GroupsOf(GroupingLayers(ext, group)))[f] == multiset(group)[f]
  {
    var names := OrderNames(ext, group);
    var gf := GroupFields(ext, group, 0);
    var p := Scope(ext, f);
    assert WellFormedGrouping(ext, names, gf) by {
      GroupingWellFormed(ext, group);
    }
    forall i | 0 <= i < |names| && names[i] != p ensures f !in Lookup(gf, names[i]) {
      assert FieldsInScope(ext, gf, names[i]);
    }
    assert GroupsOf(GroupingLayers(ext, group)) == FieldsUpTo(names, gf, |names|) by {
      GroupsOfUpTo(names, gf, |names|);
    }
    assert multiset(Lookup(gf, p))[f] == multiset(group)[f] by {
      GroupFieldsAre(ext, group, 0, p);
      assert group[0..] == group;
      ReverseMultiset(InScope(ext, group, p));
      InScopeCount(ext, group, p, f);
    }
    OrderNamesShape(ext, group);
    if f in group {
      var j :| 0 <= j < |group| && group[j] == f;
      assert p in names;
      var k :| 0 <= k < |names| && names[k] == p;
      CountPresent(names, gf, |names|, f, p, k);
    } else {
      assert multiset(group)[f] == 0;
      if p in names {
        var k :| 0 <= k < |names| && names[k] == p;
        CountPresent(names, gf, |names|, f, p, k);
      } else {
        CountAbsent(names, gf, |names|, f, p);
      }
    }
  }

  /** Each grouping field is bucketed exactly as often as it occurs in the grouping list. */
  lemma EachGroupFieldOnce(ext: Extend, group: seq<Field>)
    ensures multiset(GroupsOf(GroupingLayers(ext, group))) == multiset(group)
  {
    forall f ensures multiset(GroupsOf(GroupingLayers(ext, group)))[f] == multiset(group)[f] {
      GroupFieldCount(ext, group, f);
    }
  }

  // ---------------------------------------------------------------------
  // The reported field.

  /** The fields of the first n order entries begin with those of entry 0. */
  lemma {:induction false} FieldsUpToStart(names: seq<string>, gf: map<string, seq<Field>>, n: nat)
    requires 1 <= n <= |names| && |Lookup(gf, names[0])| > 0
    ensures |FieldsUpTo(names, gf, n)| > 0 && FieldsUpTo(names, gf, n)[0] == Lookup(gf, names[0])[0]
  {
    if n == 1 {
      assert FieldsUpTo(names, gf, 0) == [];
    } else {
      FieldsUpToStart(names, gf, n - 1);
    }
  }

  /** With a non-empty grouping the reported name is the first field listed for the innermost scope. */
  lemma BucketFieldOfInnermostScope(ext: Extend, group: seq<Field>)
    requires |group| > 0
    ensures |OrderNames(ext, group)| > 0
    ensures |Lookup(GroupFields(ext, group, 0), OrderNames(ext, group)[0])| > 0
    ensures BucketField(ext, group) == Lookup(GroupFields(ext, group, 0), OrderNames(ext, group)[0])[0].name
  {
    var gf := GroupFields(ext, group, 0);
    assert |gf| > 0 by {
      GroupFieldsAre(ext, group, 0, Scope(ext, group[0]));
      assert Scope(ext, group[0]) in gf;
    }
    BucketFieldDefined(ext, group);
  }

  /** The returned field name is that of the innermost bucket (the first of the group layers). */
  lemma BucketFieldIsInnermost(ext: Extend, group: seq<Field>)
    requires |group| > 0
    ensures |GroupsOf(GroupingLayers(ext, group))| > 0
    ensures GroupsOf(GroupingLayers(ext, group))[0].name == BucketField(ext, group)
  {
    var gf := GroupFields(ext, group, 0);
    var names := OrderNames(ext, group);
    BucketFieldOfInnermostScope(ext, group);
    assert GroupsOf(GroupingLayers(ext, group)) == FieldsUpTo(names, gf, |names|) by {
      GroupsOfUpTo(names, gf, |names|);
    }
    FieldsUpToStart(names, gf, |names|);
  }

  /** That bucket's field is the last grouping field whose scope is the innermost one. */
  lemma BucketFieldIsLastOfScope(ext: Extend, group: seq<Field>)
    requires |group| > 0
    ensures exists j ::
      && 0 <= j < |group| && group[j].name == BucketField(ext, group)
      && Scope(ext, group[j]) == OrderNames(ext, group)[0]
      && forall j' :: j < j' < |group| ==> Scope(ext, group[j']) != OrderNames(ext, group)[0]
  {
    var names := OrderNames(ext, group);
    BucketFieldOfInnermostScope(ext, group);
    var s := InScope(ext, group, names[0]);
    assert Lookup(GroupFields(ext, group, 0), names[0]) == Reverse(s) by {
      GroupFieldsAre(ext, group, 0, names[0]);
      assert group[0..] == group;
    }
    ReverseMultiset(s);
    ReverseFirst(s);
    var j := InScopeLast(ext, group, names[0]);
  }

  // ---------------------------------------------------------------------
  // Scoping.

  /**
   * `p` is a proper ancestor of the nested path `q` in the dotted-path
   * convention of the search engine ("orders" is an ancestor of "orders.items").
   */
  predicate Ancestor(p: string, q: string)
  {
    |p| < |q| && q[..|p|] == p && q[|p|] == '.'
  }

  /**
   * Entering one layer from scope `ctx`, or None when the engine would reject
   * it: a bucket must be on a field of the current scope; a nested
   * aggregation enters a path from the root or from an ancestor of it; a
   * reverse-nested aggregation is only valid inside a nested scope and joins
   * back to the root, the current path or one of its ancestors.
   */
  function Enter(ext: Extend, ctx: string, l: Layer): Option<string>
  {
    match l
    case GroupLayer(f) => if Scope(ext, f) == ctx then Some(ctx) else None
    case NestedLayer(p) => if p != "" && (ctx == "" || Ancestor(ctx, p)) then Some(p) else None
    case ReverseLayer(_, p) => if ctx != "" && (p == "" || p == ctx || Ancestor(p, ctx)) then Some(p) else None
  }

  /** The scope at the innermost point of the layers entered from `ctx` (the outermost layer is the last). */
  function Scoped(ext: Extend, layers: seq<Layer>, ctx: string): Option<string>
  {
    if layers == [] then Some(ctx)
    else match Enter(ext, ctx, layers[|layers| - 1])
      case None => None
      case Some(c) => Scoped(ext, layers[..|layers| - 1], c)
  }

  lemma {:induction false} ScopedAppend(ext: Extend, a: seq<Layer>, b: seq<Layer>, ctx: string)
    ensures Scoped(ext, a + b, ctx) == match Scoped(ext, b, ctx) case None => None case Some(c) => Scoped(ext, a, c)
  {
    if b == [] {
      assert a + b == a;
    } else {
      var b' := b[..|b| - 1];
      assert (a + b)[..|a + b| - 1] == a + b';
      assert (a + b)[|a + b| - 1] == b[|b| - 1];
      match Enter(ext, ctx, b[|b| - 1])
      case None =>
      case Some(c) => ScopedAppend(ext, a, b', c);
    }
  }

  lemma ScopedSingle(ext: Extend, layers: seq<Layer>, ctx: string)
    requires |layers| <= 1
    ensures Scoped(ext, layers, ctx) == if layers == [] then Some(ctx) else Enter(ext, ctx, layers[0])
  {
    if layers != [] {
      assert layers[..0] == [];
    }
  }

  lemma {:induction false} GroupLayersScoped(ext: Extend, fs: seq<Field>, ctx: string)
    requires forall f :: f in fs ==> Scope(ext, f) == ctx
    ensures Scoped(ext, GroupLayers(fs), ctx) == Some(ctx)
  {
    if fs != [] {
      var k := |fs| - 1;
      GroupLayersSnoc(fs, k);
      assert fs[..k + 1] == fs;
      assert forall f :: f in fs[..k] ==> f in fs;
      GroupLayersScoped(ext, fs[..k], ctx);
      assert (GroupLayers(fs[..k]) + [GroupLayer(fs[k])])[..k] == GroupLayers(fs[..k]);
      assert fs[k] in fs;
    }
  }

  /** The scope the tree is in just outside iteration i: the root outside the outermost entry. */
  function Outer(names: seq<string>, i: nat): string
    requires i < |names|
  {
    if i + 1 == |names| then "" else names[i + 1]
  }

  /** The transition into order entry i is accepted unless it reverse-nests from a scope that is not a descendant. */
  predicate StepOk(names: seq<string>, i: nat)
  {
    !(i + 1 < |names| && names[i] != "" && names[i + 1] != "" && !Ancestor(names[i], names[i + 1]))
  }

  /** Every pair of adjacent nested entries is chained: the inner scope is an ancestor of the outer one. */
  predicate ChainedScopes(names: seq<string>)
  {
    forall i :: 0 <= i < |names| ==> StepOk(names, i)
  }

  /** The transition after entry i leads from the scope outside it into scope names[i], when accepted. */
  lemma TransitionScoped(ext: Extend, names: seq<string>, i: nat)
    requires i < |names| && (i + 1 < |names| ==> names[i] != names[i + 1])
    ensures Scoped(ext, TransitionLayers(names, i), Outer(names, i)) == if StepOk(names, i) then Some(names[i]) else None
  {
    ScopedSingle(ext, TransitionLayers(names, i), Outer(names, i));
  }

  /** The join before entry 0 leads from its scope back to the root. */
  lemma EnterScoped(ext: Extend, names: seq<string>, i: nat)
    requires i < |names|
    ensures Scoped(ext, EnterLayers(names, i), names[i]) == Some(if i == 0 then "" else names[i])
  {
    ScopedSingle(ext, EnterLayers(names, i), names[i]);
  }

  lemma StepScoped(ext: Extend, names: seq<string>, gf: map<string, seq<Field>>, i: nat)
    requires i < |names| && WellFormedGrouping(ext, names, gf)
    ensures Scoped(ext, StepLayers(names, gf, i), Outer(names, i)) ==
      if StepOk(names, i) then Some(if i == 0 then "" else names[i]) else None
  {
    var e, g, t := EnterLayers(names, i), GroupLayers(Lookup(gf, names[i])), TransitionLayers(names, i);
    var outer := Outer(names, i);
    assert StepLayers(names, gf, i) == e + g + t;
    assert Scoped(ext, t, outer) == if StepOk(names, i) then Some(names[i]) else None by {
      if i + 1 < |names| {
        assert names[i] != names[i + 1];
      }
      TransitionScoped(ext, names, i);
    }
    assert Scoped(ext, e + g + t, outer) == match Scoped(ext, t, outer) case None => None case Some(c) => Scoped(ext, e + g, c) by {
      ScopedAppend(ext, e + g, t, outer);
    }
    if StepOk(names, i) {
      assert Scoped(ext, g, names[i]) == Some(names[i]) by {
        assert FieldsInScope(ext, gf, names[i]);
        GroupLayersScoped(ext, Lookup(gf, names[i]), names[i]);
      }
      assert Scoped(ext, e + g, names[i]) == Scoped(ext, e, names[i]) by {
        ScopedAppend(ext, e, g, names[i]);
      }
      EnterScoped(ext, names, i);
    }
  }

  /** Walking the layers of entries n-1 .. 0 inward: through entry n-1 first, then the rest. */
  lemma ScopedUpTo(ext: Extend, names: seq<string>, gf: map<string, seq<Field>>, n: nat, ctx: string)
    requires 1 <= n <= |names|
    ensures Scoped(ext, LayersUpTo(names, gf, n), ctx) ==
      match Scoped(ext, StepLayers(names, gf, n - 1), ctx)
      case None => None
      case Some(c) => Scoped(ext, LayersUpTo(names, gf, n - 1), c)
  {
    ScopedAppend(ext, LayersUpTo(names, gf, n - 1), StepLayers(names, gf, n - 1), ctx);
  }

  /** A rejected transition into entry n-1 makes the layers of entries n-1 .. 0 ill scoped. */
  lemma LayersScopedRejected(ext: Extend, names: seq<string>, gf: map<string, seq<Field>>, n: nat)
    requires 1 <= n <= |names| && WellFormedGrouping(ext, names, gf) && !StepOk(names, n - 1)
    ensures Scoped(ext, LayersUpTo(names, gf, n), Outer(names, n - 1)) == None
  {
    assert Scoped(ext, StepLayers(names, gf, n - 1), Outer(names, n - 1)) == None by {
      StepScoped(ext, names, gf, n - 1);
    }
    ScopedUpTo(ext, names, gf, n, Outer(names, n - 1));
  }

  /** The layers of entry 0 alone lead back to the root when its transition is accepted. */
  lemma LayersScopedFirst(ext: Extend, names: seq<string>, gf: map<string, seq<Field>>)
    requires 1 <= |names| && WellFormedGrouping(ext, names, gf) && StepOk(names, 0)
    ensures Scoped(ext, LayersUpTo(names, gf, 1), Outer(names, 0)) == Some("")
  {
    assert Scoped(ext, StepLayers(names, gf, 0), Outer(names, 0)) == Some("") by {
      StepScoped(ext, names, gf, 0);
    }
    ScopedUpTo(ext, names, gf, 1, Outer(names, 0));
    assert LayersUpTo(names, gf, 0) == [];
  }

  /** An accepted transition into entry n-1 hands the walk on to entries n-2 .. 0, entered from names[n-1]. */
  lemma LayersScopedNext(ext: Extend, names: seq<string>, gf: map<string, seq<Field>>, n: nat)
    requires 2 <= n <= |names| && WellFormedGrouping(ext, names, gf) && StepOk(names, n - 1)
    ensures Scoped(ext, LayersUpTo(names, gf, n), Outer(names, n - 1)) ==
      Scoped(ext, LayersUpTo(names, gf, n - 1), Outer(names, n - 2))
  {
    assert Scoped(ext, StepLayers(names, gf, n - 1), Outer(names, n - 1)) == Some(names[n - 1]) by {
      StepScoped(ext, names, gf, n - 1);
    }
    ScopedUpTo(ext, names, gf, n, Outer(names, n - 1));
    assert Outer(names, n - 2) == names[n - 1];
  }

  /** The transitions into entries 0 .. n-1 are all accepted. */
  predicate ChainedUpTo(names: seq<string>, n: nat)
  {
    n == 0 || (ChainedUpTo(names, n - 1) && StepOk(names, n - 1))
  }

  lemma {:induction false} ChainedUpToAll(names: seq<string>, n: nat)
    ensures ChainedUpTo(names, n) <==> forall i :: 0 <= i < n ==> StepOk(names, i)
  {
    if n > 0 {
      ChainedUpToAll(names, n - 1);
    }
  }

  /** The layers of entries n-1 .. 0 lead back to the root exactly when all their transitions are accepted. */
  lemma {:induction false} LayersScoped(ext: Extend, names: seq<string>, gf: map<string, seq<Field>>, n: nat)
    requires 1 <= n <= |names| && WellFormedGrouping(ext, names, gf)
    ensures Scoped(ext, LayersUpTo(names, gf, n), Outer(names, n - 1)) == if ChainedUpTo(names, n) then Some("") else None
  {
    var here := Scoped(ext, LayersUpTo(names, gf, n), Outer(names, n - 1));
    if !StepOk(names, n - 1) {
      assert here == None by {
        LayersScopedRejected(ext, names, gf, n);
      }
      assert !ChainedUpTo(names, n);
    } else if n == 1 {
      assert here == Some("") by {
        LayersScopedFirst(ext, names, gf);
      }
      assert ChainedUpTo(names, 1) by {
        assert ChainedUpTo(names, 0);
      }
    } else {
      var inner := Scoped(ext, LayersUpTo(names, gf, n - 1), Outer(names, n - 2));
      assert inner == if ChainedUpTo(names, n - 1) then Some("") else None by {
        LayersScoped(ext, names, gf, n - 1);
      }
      assert here == inner by {
        LayersScopedNext(ext, names, gf, n);
      }
      assert ChainedUpTo(names, n) == ChainedUpTo(names, n - 1);
    }
  }

  /**
   * The grouping tree is well scoped, with the statistics at the root,
   * exactly when every reverse-nested transition between two nested scopes
   * goes from a scope to one of its ancestors; otherwise the engine would
   * reject it.
   */
  lemma GroupingWellScoped(ext: Extend, group: seq<Field>)
    ensures Scoped(ext, GroupingLayers(ext, group), "") ==
      if ChainedScopes(OrderNames(ext, group)) then Some("") else None
  {
    var names := OrderNames(ext, group);
    if |names| > 0 {
      GroupingWellFormed(ext, group);
      LayersScoped(ext, names, GroupFields(ext, group, 0), |names|);
      ChainedUpToAll(names, |names|);
    }
  }

  /** With at most one nested scope among the grouping fields, the tree is always well scoped. */
  lemma SingleNestedScopeWellScoped(ext: Extend, group: seq<Field>)
    requires forall a, b :: 0 <= a < |group| && 0 <= b < |group| && Scope(ext, group[a]) != "" && Scope(ext, group[b]) != "" ==>
      Scope(ext, group[a]) == Scope(ext, group[b])
    ensures Scoped(ext, GroupingLayers(ext, group), "") == Some("")
  {
    var names := OrderNames(ext, group);
    OrderNamesShape(ext, group);
    forall i | 0 <= i < |names| - 1 && names[i] != "" ensures names[i + 1] == "" {
      assert names[i] in names && names[i + 1] in names;
      var a :| 0 <= a < |group| && Scope(ext, group[a]) == names[i];
      var b :| 0 <= b < |group| && Scope(ext, group[b]) == names[i + 1];
      assert names[i] != names[i + 1];
    }
    GroupingWellScoped(ext, group);
  }

  /**
   * Two sibling nested scopes: the field of scope `a` first, then one of
   * scope `b`.  The builder joins back from `b` to `a` with a reverse-nested
   * aggregation on path `a`, which is not an ancestor of `b`.
   */
  lemma SiblingScopesRejected(ext: Extend, g1: Field, g2: Field)
    requires Scope(ext, g1) == "a" && Scope(ext, g2) == "b"
    ensures OrderNames(ext, [g1, g2]) == ["b", "a"]
    ensures TransitionLayers(OrderNames(ext, [g1, g2]), 0) == [ReverseLayer("b", "b")]
    ensures Scoped(ext, GroupingLayers(ext, [g1, g2]), "") == None
  {
    var parents := Scopes(ext, [g1, g2]);
    assert parents == ["a", "b"];
    assert OrdersFrom(parents, 2) == [];
    assert Remove([], "b") == [];
    assert OrdersFrom(parents, 1) == [FieldOrder("b", 1)];
    assert Remove([FieldOrder("b", 1)], "a") == [FieldOrder("b", 1)] + Remove([], "a");
    assert OrdersFrom(parents, 0) == [FieldOrder("b", 1), FieldOrder("a", 0)];
    assert !StepOk(["b", "a"], 0);
    GroupingWellScoped(ext, [g1, g2]);
  }

  // ---------------------------------------------------------------------
  // Order independence within a scope.

  /** Two layer lists of the same shape: buckets at the same places, identical transitions elsewhere. */
  predicate SameShape(x: seq<Layer>, y: seq<Layer>)
  {
    |x| == |y| &&
    forall k :: 0 <= k < |x| ==> (x[k].GroupLayer? <==> y[k].GroupLayer?) && (!x[k].GroupLayer? ==> x[k] == y[k])
  }

  lemma ShapeConcat(a: seq<Layer>, a': seq<Layer>, b: seq<Layer>, b': seq<Layer>)
    requires SameShape(a, a') && SameShape(b, b')
    ensures SameShape(a + b, a' + b')
  {
    forall k | 0 <= k < |a + b|
      ensures ((a + b)[k].GroupLayer? <==> (a' + b')[k].GroupLayer?) && (!(a + b)[k].GroupLayer? ==> (a + b)[k] == (a' + b')[k])
    {
      if k < |a| {
        assert (a + b)[k] == a[k] && (a' + b')[k] == a'[k];
      } else {
        assert (a + b)[k] == b[k - |a|] && (a' + b')[k] == b'[k - |a|];
      }
    }
  }

  /** Two bucket lists of equal length for scope names[i] give iteration i the same shape. */
  lemma StepSameShape(names: seq<string>, gf: map<string, seq<Field>>, gf': map<string, seq<Field>>, i: nat)
    requires i < |names| && |Lookup(gf, names[i])| == |Lookup(gf', names[i])|
    ensures SameShape(StepLayers(names, gf, i), StepLayers(names, gf', i))
  {
    var e, t := EnterLayers(names, i), TransitionLayers(names, i);
    var g, g' := GroupLayers(Lookup(gf, names[i])), GroupLayers(Lookup(gf', names[i]));
    assert SameShape(e, e) && SameShape(t, t) && SameShape(g, g');
    ShapeConcat(e, e, g, g');
    ShapeConcat(e + g, e + g', t, t);
  }

  /** Bucket lists of equal length per scope give layer lists of the same shape. */
  lemma {:induction false} LayersSameShape(names: seq<string>, gf: map<string, seq<Field>>, gf': map<string, seq<Field>>, n: nat)
    requires n <= |names|
    requires forall p :: |Lookup(gf, p)| == |Lookup(gf', p)|
    ensures SameShape(LayersUpTo(names, gf, n), LayersUpTo(names, gf', n))
  {
    if n > 0 {
      var prev, prev' := LayersUpTo(names, gf, n - 1), LayersUpTo(names, gf', n - 1);
      var step, step' := StepLayers(names, gf, n - 1), StepLayers(names, gf', n - 1);
      LayersSameShape(names, gf, gf', n - 1);
      StepSameShape(names, gf, gf', n - 1);
      ShapeConcat(prev, prev', step, step');
    }
  }

  /** Swapping two fields of the same scope keeps each scope's multiset of grouping fields. */
  lemma SwapKeepsScopeFields(ext: Extend, group: seq<Field>, a: nat, b: nat, p: string)
    requires a < |group| && b < |group| && Scope(ext, group[a]) == Scope(ext, group[b])
    ensures multiset(Lookup(GroupFields(ext, group[a := group[b]][b := group[a]], 0), p)) ==
      multiset(Lookup(GroupFields(ext, group, 0), p))
  {
    var swapped := group[a := group[b]][b := group[a]];
    assert multiset(swapped) == multiset(group);
    assert swapped[0..] == swapped && group[0..] == group;
    assert multiset(InScope(ext, swapped, p)) == multiset(InScope(ext, group, p)) by {
      forall f ensures multiset(InScope(ext, swapped, p))[f] == multiset(InScope(ext, group, p))[f] {
        InScopeCount(ext, swapped, p, f);
        InScopeCount(ext, group, p, f);
      }
    }
    GroupFieldsAre(ext, group, 0, p);
    GroupFieldsAre(ext, swapped, 0, p);
    ReverseMultiset(InScope(ext, group, p));
    ReverseMultiset(InScope(ext, swapped, p));
  }

  /**
   * Swapping two grouping fields of the same scope changes neither the
   * ordering of the scopes nor the transitions between them: only which
   * field each bucket of that scope is on.
   */
  lemma SameScopeSwap(ext: Extend, group: seq<Field>, a: nat, b: nat)
    requires a < |group| && b < |group| && Scope(ext, group[a]) == Scope(ext, group[b])
    ensures var swapped := group[a := group[b]][b := group[a]];
      && OrderNames(ext, swapped) == OrderNames(ext, group)
      && (forall p :: multiset(Lookup(GroupFields(ext, swapped, 0), p)) == multiset(Lookup(GroupFields(ext, group, 0), p)))
      && SameShape(GroupingLayers(ext, swapped), GroupingLayers(ext, group))
  {
    var swapped := group[a := group[b]][b := group[a]];
    assert Scopes(ext, swapped) == Scopes(ext, group);
    var gf, gf' := GroupFields(ext, group, 0), GroupFields(ext, swapped, 0);
    forall p ensures multiset(Lookup(gf', p)) == multiset(Lookup(gf, p)) && |Lookup(gf, p)| == |Lookup(gf', p)| {
      SwapKeepsScopeFields(ext, group, a, b, p);
      assert |multiset(Lookup(gf, p))| == |multiset(Lookup(gf', p))|;
    }
    var names := OrderNames(ext, group);
    LayersSameShape(names, gf', gf, |names|);
  }

  // ---------------------------------------------------------------------
  // Edge cases and one worked example.

  /** Without grouping fields the result is the statistics mapping itself, with no field reported. */
  lemma NoGrouping(ext: Extend, stats: seq<Field>)
    requires |stats| > 0
    ensures Aggregation([], stats, ext) == (Some(StatsAggs(ext, stats)), "")
  {
    assert OrdersFrom(Scopes(ext, []), 0) == [];
  }

  /**
   * A root grouping field G1 followed by a field G2 of scope "orders", with
   * one statistic S1 of scope "orders": G1's bucket is outermost, then the
   * nested scope and G2's bucket, then the join back to the root around the
   * nested statistics; the reported field is G2.
   */
  lemma NestingExample(ext: Extend, g1: Field, g2: Field, s1: Field, a: Fragment)
    requires ext.isNestedField(g1) == ("", false) && ext.isNestedField(g2) == ("orders", true)
    requires ext.isNestedField(s1) == ("orders", true) && ext.statistics(s1) == Some(a)
    ensures Aggregation([g1, g2], [s1], ext) ==
      (Some(map[g1.name := GroupBucket(g1, map["orders" := NestedBucket("orders",
              map[g2.name := GroupBucket(g2, map[Item := ReverseNestedBucket("",
                map["orders" := NestedBucket("orders", map[s1.name := a])])])])])]),
       g2.name)
  {
    var st := map["orders" := NestedBucket("orders", map[s1.name := a])];
    ExampleStats(ext, s1, a);
    ExampleLayers(ext, g1, g2);
    var l0, l1, l2, l3 := ReverseLayer(Item, ""), GroupLayer(g2), NestedLayer("orders"), GroupLayer(g1);
    assert [l0, l1, l2, l3] == [l0, l1, l2] + [l3] && [l0, l1, l2] == [l0, l1] + [l2] && [l0, l1] == [l0] + [l1];
    var t0 := Apply([l0], st);
    assert t0 == ApplyLayer(l0, st) by {
      ApplySingle([l0], st);
    }
    var t1 := Apply([l0, l1], st);
    assert t1 == ApplyLayer(l1, t0) by {
      ApplySnoc([l0], l1, st);
    }
    var t2 := Apply([l0, l1, l2], st);
    assert t2 == ApplyLayer(l2, t1) by {
      ApplySnoc([l0, l1], l2, st);
    }
    assert Apply([l0, l1, l2, l3], st) == ApplyLayer(l3, t2) by {
      ApplySnoc([l0, l1, l2], l3, st);
    }
  }

  lemma ExampleStats(ext: Extend, s1: Field, a: Fragment)
    requires ext.isNestedField(s1) == ("orders", true) && ext.statistics(s1) == Some(a)
    ensures StatsAggs(ext, [s1]) == map["orders" := NestedBucket("orders", map[s1.name := a])]
  {
    var stats := [s1];
    assert stats[..0] == [];
    assert RootStats(ext, stats) == map[];
    assert NestedStats(ext, stats) == map["orders" := map[s1.name := a]];
  }

  lemma ExampleOrders(ext: Extend, g1: Field, g2: Field)
    requires Scope(ext, g1) == "" && Scope(ext, g2) == "orders"
    ensures OrderNames(ext, [g1, g2]) == ["orders", ""]
  {
    var parents := Scopes(ext, [g1, g2]);
    assert parents == ["", "orders"];
    assert OrdersFrom(parents, 2) == [];
    assert Remove([], "orders") == [];
    assert OrdersFrom(parents, 1) == [FieldOrder("orders", 1)];
    assert Remove([FieldOrder("orders", 1)], "") == [FieldOrder("orders", 1)] + Remove([], "");
    assert OrdersFrom(parents, 0) == [FieldOrder("orders", 1), FieldOrder("", 0)];
  }

  lemma ExampleGroupFields(ext: Extend, g1: Field, g2: Field)
    requires Scope(ext, g1) == "" && Scope(ext, g2) == "orders"
    ensures GroupFields(ext, [g1, g2], 0) == map["orders" := [g2], "" := [g1]]
  {
    var group := [g1, g2];
    assert GroupFields(ext, group, 2) == map[];
    assert Lookup(map[], "orders") == [];
    var gf1 := GroupFields(ext, group, 1);
    assert [] + [g2] == [g2];
    assert gf1 == map["orders" := [g2]];
    assert Lookup(gf1, "") == [];
    assert [] + [g1] == [g1];
  }

  lemma ExampleLayers(ext: Extend, g1: Field, g2: Field)
    requires Scope(ext, g1) == "" && Scope(ext, g2) == "orders"
    ensures GroupingLayers(ext, [g1, g2]) == [ReverseLayer(Item, ""), GroupLayer(g2), NestedLayer("orders"), GroupLayer(g1)]
    ensures BucketField(ext, [g1, g2]) == g2.name
  {
    ExampleOrders(ext, g1, g2);
    ExampleGroupFields(ext, g1, g2);
    var names := ["orders", ""];
    var gf := map["orders" := [g2], "" := [g1]];
    assert Lookup(gf, "orders") == [g2] && Lookup(gf, "") == [g1];
    assert GroupLayers([g2]) == [GroupLayer(g2)];
    assert GroupLayers([g1]) == [GroupLayer(g1)];
    var s0 := StepLayers(names, gf, 0);
    assert s0 == [ReverseLayer(Item, ""), GroupLayer(g2), NestedLayer("orders")];
    var s1 := StepLayers(names, gf, 1);
    assert s1 == [GroupLayer(g1)];
    assert LayersUpTo(names, gf, 1) == [] + s0;
    assert LayersUpTo(names, gf, 2) == LayersUpTo(names, gf, 1) + s1;
  }
}

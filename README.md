# Elasticsearch filter and aggregation composition, modelled in Dafny

This project models the query-composition core of the `helper` Go library.

- **Filter composition** (`elastic/filter.go`). Range lists are validated (`CheckNumbers`). Existence, numeric-range and terms clauses are appended to caller-owned clause lists (`Exists`, `NumberRange`, `Terms`). The filter and must-not lists are merged into one `bool` query (`DefaultQueryBuilder`).
- **Aggregation composition** (`DefaultAggBuilder`). Statistic fields and an ordered list of grouping fields become one aggregation tree. `nested` and `reverse_nested` wrappers are inserted at each nested-scope boundary. A small sorted list of scopes (`fieldOrders`) records the first position of each scope. The builder also returns a bucket-field name.
- **Fragment constructors** (`elastic/query.go`, `elastic/aggregations.go`). They become constructors of an abstract `Fragment` datatype, with the parameter choices each one makes.
- **A pure piece of `db/db.go`**: the page-limit clamp of `PageCondition` and the four substring-based error classifiers.

## How the model is organised

| file | module | models |
|---|---|---|
| `optional.dfy` | `Optional` | Go's `nil`-or-value convention |
| `fragments.dfy` | `Fragments` | query and aggregation fragments as a datatype; `index.Index` and `fields.Extend` as records of uninterpreted functions; `index.Item` as an opaque constant |
| `query.dfy` | `Query` | `elastic/query.go` |
| `aggregations.dfy` | `Aggregations` | `elastic/aggregations.go` |
| `filter.dfy` | `FilterComposition` | the filter half of `elastic/filter.go` |
| `orders.dfy` | `ScopeOrders` | `fieldOrder` / `fieldOrders` |
| `aggbuilder.dfy` | `AggregationComposition` | `DefaultAggBuilder`, phase by phase |
| `aggproperties.dfy` | `AggregationProperties` | what the aggregation tree satisfies |
| `db.dfy` | `Db` | the clamp and the error classifiers |

### Modelling choices

- **Caller-owned slices.** A slice passed by pointer (`*[]map[string]any`) is a `FilterList` object whose `items` field the methods reassign. `Terms` is specified both for distinct `parent` and `filters` lists and for one list passed twice.
- **`fieldOrders`.** It is a `FieldOrders` object whose `records` sequence `Append`, `Swap` and `Sort` update in place.
  - `sort.Sort` is modelled as an insertion sort over `Less` and `Swap`. Its contract is "sorted by position, largest first, and a permutation".
  - Because the positions the builder appends are distinct, that contract determines the result (`SortedPermutationUnique`).
- **The aggregation tree.** `DefaultAggBuilder` repeatedly rebinds `resultAgg` to a wrapped copy of itself. The model names each wrapping step as a `Layer`:
  - a bucket on a grouping field;
  - a `nested` aggregation;
  - a named `reverse_nested` aggregation.

  The phase-3 loop is proved equal to applying the layer list `GroupingLayers` to the statistics mapping, innermost layer first. The properties are stated about that list.
- **Well-scopedness.** Elasticsearch accepts a `reverse_nested` aggregation only inside a nested scope, and only when it joins back to the root or to an enclosing path. A bucket must be on a field of the current scope.
  - `Scoped` walks the layer list from the root and checks those rules, using the dotted-path convention for enclosing paths ("orders" encloses "orders.items").
  - `GroupingWellScoped` shows that the builder's tree passes the check exactly when every transition between two adjacent nested scopes goes to an enclosing path (`ChainedScopes`).

### Two behaviours of the code worth knowing

- **The returned bucket field.**
  - It is the highest-indexed grouping field of the innermost scope, which is order entry 0 (elastic/filter.go:154-156). It is not the first field of the outermost scope.
  - With a root field G1 and an "orders" field G2, the name returned is G2's.
  - `BucketFieldIsLastOfScope`, `BucketFieldIsInnermost` and `NestingExample` state this.
- **Two adjacent nested scopes.**
  - Between two adjacent nested scopes the code emits `reverse_nested` with the inner scope's own path (elastic/filter.go:149). It does not go back to the root and re-enter.
  - That path is valid only when it encloses the outer scope.
  - `SiblingScopesRejected` shows that two sibling scopes "a" and "b" produce a tree the scope check rejects. The intended behaviour for siblings is unclear, so this is recorded here rather than as a finding.

## Model

| member | source | states |
|---|---|---|
| Query.BoolQuery | elastic/query.go:16-18 | a `bool` query carrying exactly the given clauses and options, in order |
| Query.ExistsQuery | elastic/query.go:20-22 | an existence check addressed through `QueryField(field)` |
| Query.NamedQuery | elastic/query.go:24-28 | a mapping with exactly one key, `name`, bound to the query unchanged |
| Query.NestedQuery | elastic/query.go:30-32 | a nested query carrying the path and the inner query unchanged |
| Query.RangeConditions | elastic/query.go:36-42 | `gte start` is present iff `start > 0`; `lte end` is present iff `end > 0`; nothing else; `gte` comes first when both are present |
| Query.RangeQuery | elastic/query.go:34-44 | the conditional appends build exactly `RangeConditions(start, end)` on `QueryField(field)` |
| Query.TermsQuery | elastic/query.go:51-54 | a terms match on `QueryField(field)` with the values in the given order |
| Aggregations.NamedAgg | elastic/aggregations.go:75-79 | a mapping with exactly one key, `name`, bound to the aggregation |
| Aggregations.NestedAgg | elastic/aggregations.go:81-84 | a nested aggregation carrying the name and the children unchanged |
| Aggregations.ReverseNestedAgg | elastic/aggregations.go:96-99 | a reverse-nested aggregation carrying the path and the children unchanged |
| Aggregations.FiltersAgg | elastic/aggregations.go:52-68 | nil iff there are no filters; otherwise the filters in order, then the other-bucket key iff it is non-empty, then the children iff there are any, last |
| Aggregations.TermsAgg | elastic/aggregations.go:110-118 | always children, size and missing value, in that order; `min_doc_count` iff it is positive |
| Aggregations.DateHistogramAgg | elastic/aggregations.go:27-40 | a fixed interval iff `fixed`, otherwise a calendar interval; always offset `-8h` and the children; a missing value iff one is set |
| Aggregations.RangeAgg | elastic/aggregations.go:86-90 | the caller's range parameters unchanged and in order, then the children |
| FilterComposition.CheckNumbers | elastic/filter.go:12-22 | true iff some range in any list has both bounds zero, or a non-zero end below its start |
| FilterComposition.Exists | elastic/filter.go:24-32 | appends exactly one clause per field, in field order, nested-wrapped iff the field is nested; the earlier clauses are untouched |
| FilterComposition.NumberRangeClauses | elastic/filter.go:34-52 | no ranges: nothing; one range: its range query iff a bound is positive; two or more: exactly one `should` with min-match 1 over the emitted ranges, even when none is emitted |
| FilterComposition.NumberRange | elastic/filter.go:34-52 | the list grows by exactly `NumberRangeClauses` |
| FilterComposition.RangeClausesConcat | elastic/filter.go:43-49 | the multi-range sub-queries distribute over concatenation of the ranges, so they keep the ranges' order |
| FilterComposition.RangeClauseSource | elastic/filter.go:43-49 | every sub-query is the range query of some emitted range |
| FilterComposition.RangeClauseEmitted | elastic/filter.go:43-49 | every emitted range contributes its range query |
| FilterComposition.TermsPlacement | elastic/filter.go:54-77 | at most one clause in total; the four cases (null-handled with or without values, plain with or without values) and where each clause goes; terms are nested-wrapped only for a nested null-handled field |
| FilterComposition.Terms | elastic/filter.go:54-77 | `parent` and `filters` grow by exactly `TermsPlacement`, also when both are the same list |
| FilterComposition.DefaultQueryBuilder | elastic/filter.go:79-95 | nil iff neither source has filters; otherwise one `bool` whose `filter` clause is present iff there are filters and whose `must_not` clause is present iff there are nots, with nothing else and `filter` first |
| ScopeOrders.FieldOrders.constructor | elastic/filter.go:167-169 | `newOrders` is empty and satisfies the list invariant |
| ScopeOrders.FieldOrders.Less | elastic/filter.go:171-173 | entry i sorts before entry j iff its position is larger |
| ScopeOrders.FieldOrders.Swap | elastic/filter.go:175-177 | the two records are exchanged, the rest is unchanged, the multiset is kept and unique names stay unique |
| ScopeOrders.FieldOrders.Len | elastic/filter.go:179-181 | the number of records |
| ScopeOrders.FieldOrders.Find | elastic/filter.go:184-185 | the index of the first record with the name, or the length when there is none |
| ScopeOrders.FieldOrders.Sort | elastic/filter.go:195-195 | the records end sorted by position, largest first, as a permutation of the old records |
| ScopeOrders.FieldOrders.Append | elastic/filter.go:183-197 | keeps names unique and the list sorted; the new multiset and per-name positions are those of `Updated`; nothing changes when the recorded position is not larger |
| ScopeOrders.FieldOrders.Get | elastic/filter.go:199-204 | nil iff the index is at least the length, otherwise the record there |
| ScopeOrders.SwapKeepsUnique | elastic/filter.go:175-177 | exchanging two records keeps the names distinct |
| ScopeOrders.PermutationKeepsPositions | elastic/filter.go:188-188 | re-sorting a list with unique names changes no name's recorded position |
| ScopeOrders.UpdatedPositions | elastic/filter.go:183-197 | after `append`, the name's position is the minimum of the old one and the new one, other names keep theirs, and names stay unique |
| ScopeOrders.OrdersFromPositions | elastic/filter.go:125-130 | each record of the grouping loop holds the first index at which its scope occurs |
| ScopeOrders.OrdersFromCovers | elastic/filter.go:125-130 | every scope of the grouping fields has a record |
| ScopeOrders.OrdersFromShape | elastic/filter.go:125-130 | the records are strictly sorted by position, largest first, with unique names |
| ScopeOrders.SortedPermutationUnique | elastic/filter.go:195-195 | a sorted permutation of a strictly sorted list is that list, so ties never arise and the order is determined |
| ScopeOrders.AppendStep | elastic/filter.go:128-129 | one `append(parent, i)` takes the records of fields i+1.. to those of fields i.. |
| AggregationComposition.DefaultAggBuilder | elastic/filter.go:97-158 | equals `Aggregation`: nil iff there are no statistics; otherwise the grouping layers applied to the statistics mapping; `""` without grouping |
| AggregationComposition.CollectStatistics | elastic/filter.go:106-122 | the statistics loop and the nested merge give `StatsAggs` |
| AggregationComposition.CollectGroups | elastic/filter.go:123-130 | the grouping loop gives `GroupFields` and the ordering records `OrdersFrom(scopes, 0)` |
| AggregationComposition.WrapGroups | elastic/filter.go:132-152 | the emitting loop applies the layers of every order entry, innermost entry first |
| AggregationComposition.WrapStep | elastic/filter.go:133-151 | one iteration applies the join to the root, the buckets and the transition |
| AggregationComposition.WrapBuckets | elastic/filter.go:136-138 | one bucket per listed field, in list order |
| AggregationComposition.WrapTransition | elastic/filter.go:140-151 | the transition after entry j: a root entry that is not last joins back to the root; a nested entry is entered when it is last or the next entry is the root, and is reverse-nested otherwise |
| AggregationComposition.GroupFieldsAre | elastic/filter.go:125-128 | a scope's list holds exactly the fields of that scope, from the last one back; a scope has an entry iff some field lies in it |
| AggregationComposition.OrderNamesMembers | elastic/filter.go:125-130 | a scope is an order entry iff some grouping field lies in it |
| AggregationComposition.OrderNamesLast | elastic/filter.go:125-130 | the last order entry is the scope of grouping field 0 |
| AggregationComposition.OrderNamesShape | elastic/filter.go:125-130 | the order entries are unique, are exactly the scopes used, and the scope of field 0 is last |
| AggregationComposition.BucketFieldDefined | elastic/filter.go:154-155 | with grouping, `get(0)` is a record and its scope lists a field, so the lookup is defined |
| AggregationProperties.RootStatPresent | elastic/filter.go:106-117 | a field whose root-level statistic is keyed `k` puts `k` among the root statistics |
| AggregationProperties.RootStatLast | elastic/filter.go:106-117 | a root statistic holds the statistic of the last field with that name (last write wins) |
| AggregationProperties.NestedScopePresent | elastic/filter.go:106-114 | a scope gets a collection iff one of its fields yields a statistic (nil statistics are skipped) |
| AggregationProperties.NestedStatPresent | elastic/filter.go:108-114 | a nested statistic is keyed by field name in its scope's collection |
| AggregationProperties.NestedStatLast | elastic/filter.go:108-114 | that entry holds the statistic of the last field yielding it |
| AggregationProperties.StatsAggsEntries | elastic/filter.go:106-122 | the keys are the root statistic names and the nested scopes; a scope's key holds `NestedAgg(scope, collection)`; any other key holds the last root statistic of that name |
| AggregationProperties.GroupingWellFormed | elastic/filter.go:123-130 | the order entries are unique and every listed field lies in its scope |
| AggregationProperties.GroupFieldCount | elastic/filter.go:125-138 | each grouping field is bucketed as often as it occurs in the grouping list |
| AggregationProperties.EachGroupFieldOnce | elastic/filter.go:125-138 | the buckets of the tree are a permutation of the grouping fields |
| AggregationProperties.BucketFieldOfInnermostScope | elastic/filter.go:154-156 | the returned name is the first field listed for order entry 0 |
| AggregationProperties.BucketFieldIsInnermost | elastic/filter.go:132-156 | the returned name is that of the innermost bucket |
| AggregationProperties.BucketFieldIsLastOfScope | elastic/filter.go:125-156 | that bucket is on the highest-indexed grouping field of the innermost scope |
| AggregationProperties.EnterScoped | elastic/filter.go:133-135 | when entry 0 is nested, the statistics are first joined back to the root |
| AggregationProperties.TransitionScoped | elastic/filter.go:140-151 | the transition after entry i leads from the scope outside it into its scope exactly when it is accepted |
| AggregationProperties.StepScoped | elastic/filter.go:133-151 | one iteration is well scoped, from outside into the entry's scope, exactly when its transition is accepted |
| AggregationProperties.LayersScoped | elastic/filter.go:132-152 | the first n entries lead back to the root exactly when all their transitions are accepted |
| AggregationProperties.GroupingWellScoped | elastic/filter.go:132-152 | the whole tree is well scoped iff every nested-to-nested transition goes to an enclosing path |
| AggregationProperties.SingleNestedScopeWellScoped | elastic/filter.go:132-152 | with at most one nested scope among the grouping fields, the tree is always well scoped |
| AggregationProperties.SiblingScopesRejected | elastic/filter.go:146-150 | two sibling nested scopes produce `reverse_nested` onto the inner scope's own path, which the scope check rejects |
| AggregationProperties.LayersSameShape | elastic/filter.go:132-152 | bucket lists of equal length per scope give layer lists of the same shape |
| AggregationProperties.SameScopeSwap | elastic/filter.go:125-138 | swapping two grouping fields of the same scope keeps the order entries, each scope's fields as a multiset, and the tree's shape |
| AggregationProperties.NoGrouping | elastic/filter.go:123-157 | without grouping fields the statistics mapping is returned unchanged, with `""` |
| AggregationProperties.NestingExample | elastic/filter.go:97-158 | a root field G1 and an "orders" field G2 grouping an "orders" statistic give the exact tree `G1 › nested(orders) › G2 › Item: reverse_nested("") › orders: nested(orders) › S1` and the name of G2 |
| AggregationProperties.ExampleStats | elastic/filter.go:106-122 | one nested statistic becomes the single key "orders" holding `nested(orders)` |
| AggregationProperties.ExampleOrders | elastic/filter.go:125-130 | the order entries of that example are `["orders", ""]` |
| AggregationProperties.ExampleGroupFields | elastic/filter.go:125-128 | its field lists are `"orders" ↦ [G2]` and `"" ↦ [G1]` |
| AggregationProperties.ExampleLayers | elastic/filter.go:132-156 | its layers, innermost first, and its bucket field |
| Db.ClampLimit | db/db.go:106-110 | the kept limit is within 1..100: 10 for a non-positive limit, 100 above 100, otherwise unchanged |
| Db.ClampIdempotent | db/db.go:106-110 | clamping twice is clamping once |
| Db.PageCondition | db/db.go:103-114 | on a successful bind, a paging condition with the offset untouched and the clamped limit; otherwise the binding error and no condition |
| Db.Index | db/db.go:117-117 | -1 iff the phrase does not occur, otherwise the character offset of its first occurrence |
| Db.Mentions | db/db.go:116-130 | true iff the error is non-nil and its text contains the phrase |
| Db.IsMissValueError | db/db.go:116-118 | true iff the error is non-nil and mentions "doesn't have a default value" |
| Db.IsDuplicateKeyError | db/db.go:120-122 | true iff the error is non-nil and mentions "Duplicate entry" |
| Db.IsNotFoundError | db/db.go:124-126 | true iff the error is non-nil and mentions "record not found" |
| Db.IsConnectionRefusedError | db/db.go:128-130 | true iff the error is non-nil and mentions "connection refused" |
| Db.NilIsNoKnownError | db/db.go:116-130 | a nil error is none of the four kinds |
| Db.DuplicateKeyExample | db/db.go:120-122 | a message with the phrase in its middle is recognised |
| Db.ShortMessageExample | db/db.go:124-130 | a message shorter than the phrase is not recognised |

## Left out

- The elastic-go builders behind `Builder()` and `AggsBuilder()`, and the JSON they produce. They are foreign code. Fragments and their options are abstract constructors and parameter tags, so the model states which options are chosen and in what order, not their wire format.
- `fields.Extend.Group(field, aggs)` is foreign code. It is the abstract constructor `GroupBucket(field, aggs)`, so the tree's shape stays observable.
- `FiltersAgg`, `DateHistogramAgg` and `RangeAgg` split their option slice into a first element and the rest. They are modelled as one option sequence, because that split only reflects the builder's variadic signature.
- The pass-through helpers `BoolQueryClauseParam`, `BoolQueryMinShouldMatchParam`, `StoredScriptQuery`, `TermQuery`, `AggSelector`, `DistinctAgg`, `FilterAgg`, `HistogramAgg`, `RangeAggParam`, `SumAgg`, `SumBucketAgg`, `ValueCountAgg` and `GenerateFilter` are left out. They forward to the builders and make no decisions. The first two appear only as the `Clause` and `MinShouldMatch` constructors, and `GenerateFilter` only as the `NamedFilter` option.
- The order in which Go iterates `nestedAgg` when merging is not modelled (elastic/filter.go:120-122). The merge loop removes keys in an arbitrary order, and its invariant shows the result does not depend on that order.
- A nested scope whose name equals a root statistic's name collides on one key. The model keeps the source's later write, which is the nested aggregation (`StatsAggsEntries`). No further rule is stated.
- Multi-level scopes are not walked as the engine would walk them. The model does not reject them, and `GroupingWellScoped` states exactly which scope sequences give a well-scoped tree.
- `sort.Sort`'s own algorithm and its behaviour on ties are not modelled. `FieldOrders.Sort` is an insertion sort with the same contract, sorted and a permutation, and the positions the builder appends are distinct.
- The identity of `*fieldOrder` pointers is not modelled. Records are values, and `append` replaces a record instead of writing its `Pos` through the pointer. The pointers handed out, by `get` (elastic/filter.go:199-204) and by the range loop (elastic/filter.go:132), are only read for their `Name`, so nothing observes the difference.
- A nil `group` or `stats` argument is an empty sequence. For a nil `stats` this matches the source, which returns `(nil, "")`. A nil `group` with non-empty `stats` differs: Go panics at `group.Fields()` (elastic/filter.go:124), while the model returns the ungrouped statistics with `""`.
- `ctx.BindQuery` in `PageCondition` is I/O through gin. Its outcome, a bound page or an error, is a parameter. `rdb.Page` is the abstract condition `PageLimit(offset, limit)`.
- The database CRUD, transaction, sub-query and raw-SQL wrappers of `db/db.go`, and `conn`, are left out. They are gorm/rdb I/O pass-throughs. So are `response/web.go`, which writes HTTP responses, and `elastic/search.go`, a one-line call into an external package.
- Db.Index: offsets count characters, not the UTF-8 bytes `strings.Index` counts, so it differs from Go on text with a non-ASCII character before the phrase. The classifiers only test the result's sign (db/db.go:117-129), which is the same either way.
- Go's 64-bit `int` and `int64` are unbounded integers here. No modelled operation does arithmetic on them: range bounds and page offsets pass through, and limits are only compared and replaced by constants.

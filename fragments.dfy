/**
 * The abstract search-engine DSL that the composition engine builds.
 *
 * The concrete JSON produced by the external elastic-go builders is not
 * modelled: every builder call becomes a constructor of `Fragment`, and every
 * `With*` option becomes a parameter tag (`BoolParam`, `AggParam`).  The
 * collaborators `index.Index` and `fields.Extend` are records of total
 * functions, so every lemma holds for every index and every extension.
 */
module Fragments {
  import opened Optional

  /** A scalar the engine passes through untouched (the source's `any`). */
  datatype Value = IntValue(i: int) | StringValue(s: string)

  /** A field descriptor (`fields.Field`): its name and the per-field parameters the builders read. */
  datatype Field = Field(
    name: string,
    missing: Option<Value>,
    minDocCount: int,
    dateInterval: Value,
    dataInterval: Value)

  /** The clause kinds of a `bool` query. */
  datatype ClauseType = Must | Filter | Should | MustNot

  /** The comparison operators a range query uses. */
  datatype CompareOperator = GTE | LTE

  datatype RangeCondition = Compare(op: CompareOperator, bound: int)

  /** One option of a `bool` query: a clause with its queries, or `minimum_should_match`. */
  datatype BoolParam =
    | Clause(kind: ClauseType, queries: seq<Fragment>)
    | MinShouldMatch(value: string)

  /** One option of a bucket aggregation. */
  datatype AggParam =
    | ChildAggs(aggs: map<string, Fragment>)
    | Size(size: int)
    | MissingValue(missing: Option<Value>)
    | MinDocCount(count: int)
    | FixedInterval(interval: Value)
    | CalendarInterval(interval: Value)
    | Offset(offset: string)
    | OtherBucketKey(key: string)
    | NamedFilter(name: string, query: Fragment)
    | Bounds(key: string, from: Value, to: Value)

  /** A query or aggregation fragment. */
  datatype Fragment =
    // queries
    | Bool(clauses: seq<BoolParam>)
    | Exists(field: string)
    | Terms(field: string, values: seq<Value>)
    | Range(field: string, conditions: seq<RangeCondition>)
    | Nested(path: string, query: Fragment)
    // aggregations
    | NestedBucket(path: string, aggs: map<string, Fragment>)
    | ReverseNestedBucket(path: string, aggs: map<string, Fragment>)
    | GroupBucket(groupField: Field, aggs: map<string, Fragment>)  // what extend.Group(field, aggs) builds
    | FiltersBucket(params: seq<AggParam>)
    | TermsBucket(field: string, params: seq<AggParam>)
    | DateHistogramBucket(field: string, params: seq<AggParam>)
    | RangeBucket(field: string, params: seq<AggParam>)

  /** Named aggregations, keyed by aggregation name. */
  type AggMap = map<string, Fragment>

  /**
   * The index metadata lookup (`index.Index`): the engine-qualified name of a
   * field, its nesting scope with a flag saying whether it is nested, and the
   * terms size hint.
   */
  datatype Index = Index(
    queryField: string -> string,
    isNestedField: string -> (string, bool),
    fieldTermSize: string -> int)

  /**
   * The per-index aggregation policy (`fields.Extend`): the statistic
   * aggregation of a field (None for the source's nil map) and its nesting
   * scope.  `Group` is the constructor `GroupBucket`.
   */
  datatype Extend = Extend(
    statistics: Field -> Option<Fragment>,
    isNestedField: Field -> (string, bool))

  /** The conventional aggregation name `index.Item`; its value is not fixed here. */
  const Item: string
}

/** The aggregation fragment constructors of elastic/aggregations.go. */
module Aggregations {
  import opened Optional
  import opened Fragments

  /** `NamedAgg`: a mapping with the single key `name`, bound to the aggregation. */
  function NamedAgg(name: string, agg: Fragment): (r: AggMap)
    ensures r.Keys == {name} && r[name] == agg
  {
    map[name := agg]
  }

  /** `NestedAgg`: enters nested scope `name`, carrying the child aggregations unchanged. */
  function NestedAgg(name: string, agg: AggMap): (r: Fragment)
    ensures r.NestedBucket? && r.path == name && r.aggs == agg
  {
    NestedBucket(name, agg)
  }

  /** `ReverseNestedAgg`: joins back to `path` ("" is the root), carrying the children unchanged. */
  function ReverseNestedAgg(path: string, agg: AggMap): (r: Fragment)
    ensures r.ReverseNestedBucket? && r.path == path && r.aggs == agg
  {
    ReverseNestedBucket(path, agg)
  }

  /**
   * `FiltersAgg`: nil without filters; otherwise the caller's filters in
   * order, then the other-bucket key if one is given, then the child
   * aggregations if there are any.
   */
  method FiltersAgg(filters: seq<AggParam>, otherBucketKey: string, agg: AggMap) returns (r: Option<Fragment>)
    ensures r.None? <==> |filters| == 0
    ensures r.Some? ==> r.value.FiltersBucket?
    ensures r.Some? ==> |r.value.params| == |filters| + (if otherBucketKey != "" then 1 else 0) + (if |agg| > 0 then 1 else 0)
    ensures r.Some? ==> r.value.params[..|filters|] == filters
    ensures r.Some? && otherBucketKey != "" ==> r.value.params[|filters|] == OtherBucketKey(otherBucketKey)
    ensures r.Some? && |agg| > 0 ==> r.value.params[|r.value.params| - 1] == ChildAggs(agg)
  {
    if |filters| == 0 {
      return None;
    }
    var params := filters;
    if otherBucketKey != "" {
      params := params + [OtherBucketKey(otherBucketKey)];
    }
    if |agg| > 0 {
      params := params + [ChildAggs(agg)];
    }
    r := Some(FiltersBucket(params));
  }

  /**
   * `TermsAgg`: always the child aggregations, the index's size hint and the
   * field's missing value (even when absent), in that order; a minimum
   * document count only when it is positive.
   */
  method TermsAgg(index: Index, field: Field, agg: AggMap) returns (r: Fragment)
    ensures r.TermsBucket? && r.field == index.queryField(field.name)
    ensures |r.params| == (if field.minDocCount > 0 then 4 else 3)
    ensures r.params[..3] == [ChildAggs(agg), Size(index.fieldTermSize(field.name)), MissingValue(field.missing)]
    ensures field.minDocCount > 0 ==> r.params[3] == MinDocCount(field.minDocCount)
  {
    var params := [ChildAggs(agg), Size(index.fieldTermSize(field.name)), MissingValue(field.missing)];
    if field.minDocCount > 0 {
      params := params + [MinDocCount(field.minDocCount)];
    }
    r := TermsBucket(index.queryField(field.name), params);
  }

  /**
   * `DateHistogramAgg`: a fixed interval when `fixed`, else a calendar
   * interval; then always the offset "-8h" and the child aggregations; a
   * missing value only when the field has one.
   */
  method DateHistogramAgg(index: Index, field: Field, fixed: bool, agg: AggMap) returns (r: Fragment)
    ensures r.DateHistogramBucket? && r.field == index.queryField(field.name)
    ensures |r.params| == (if field.missing.Some? then 4 else 3)
    ensures r.params[0] == (if fixed then FixedInterval(field.dateInterval) else CalendarInterval(field.dateInterval))
    ensures r.params[1] == Offset("-8h") && r.params[2] == ChildAggs(agg)
    ensures field.missing.Some? ==> r.params[3] == MissingValue(field.missing)
  {
    var params: seq<AggParam> := [];
    if fixed {
      params := params + [FixedInterval(field.dateInterval)];
    } else {
      params := params + [CalendarInterval(field.dateInterval)];
    }
    params := params + [Offset("-8h"), ChildAggs(agg)];
    if field.missing.Some? {
      params := params + [MissingValue(field.missing)];
    }
    r := DateHistogramBucket(index.queryField(field.name), params);
  }

  /** `RangeAgg`: the caller's range parameters in their order, then the child aggregations. */
  method RangeAgg(index: Index, field: Field, rangeParams: seq<AggParam>, agg: AggMap) returns (r: Fragment)
    ensures r.RangeBucket? && r.field == index.queryField(field.name)
    ensures |r.params| == |rangeParams| + 1
    ensures r.params[..|rangeParams|] == rangeParams && r.params[|rangeParams|] == ChildAggs(agg)
  {
    var params := rangeParams + [ChildAggs(agg)];
    r := RangeBucket(index.queryField(field.name), params);
  }
}

/** The query fragment constructors of elastic/query.go. */
module Query {
  import opened Fragments

  /** `AtLeastMatchOne`: the `minimum_should_match = "1"` option. */
  const AtLeastMatchOne: BoolParam := MinShouldMatch("1")

  /** `BoolQuery`: a `bool` query with the given clauses and options, in order. */
  function BoolQuery(params: seq<BoolParam>): (r: Fragment)
    ensures r.Bool? && r.clauses == params
  {
    Bool(params)
  }

  /** `NestedQuery`: runs the query inside nested scope `name`, query unchanged. */
  function NestedQuery(name: string, query: Fragment): (r: Fragment)
    ensures r.Nested? && r.path == name && r.query == query
  {
    Nested(name, query)
  }

  /** `ExistsQuery`: an existence check on the index's name for the field. */
  function ExistsQuery(index: Index, field: string): (r: Fragment)
    ensures r.Exists? && r.field == index.queryField(field)
  {
    Exists(index.queryField(field))
  }

  /** `TermsQuery`: a terms match on the index's name for the field, values in the given order. */
  function TermsQuery(index: Index, field: string, values: seq<Value>): (r: Fragment)
    ensures r.Terms? && r.field == index.queryField(field) && r.values == values
  {
    Terms(index.queryField(field), values)
  }

  /** `NamedQuery`: a mapping with the single key `name`, bound to the query unchanged. */
  function NamedQuery(name: string, query: Fragment): (r: map<string, Fragment>)
    ensures r.Keys == {name} && r[name] == query
  {
    map[name := query]
  }

  /**
   * The conditions `RangeQuery` emits: `>= start` exactly when start is
   * positive, `<= end` exactly when end is positive, `>=` first, nothing else.
   */
  function RangeConditions(start: int, end: int): (c: seq<RangeCondition>)
    ensures Compare(GTE, start) in c <==> start > 0
    ensures Compare(LTE, end) in c <==> end > 0
    ensures forall x :: x in c ==> x == Compare(GTE, start) || x == Compare(LTE, end)
    ensures |c| == (if start > 0 then 1 else 0) + (if end > 0 then 1 else 0)
    ensures |c| == 2 ==> c[0].op == GTE && c[1].op == LTE
  {
    (if start > 0 then [Compare(GTE, start)] else []) + (if end > 0 then [Compare(LTE, end)] else [])
  }

  /** `RangeQuery`: builds its condition list by conditional appends. */
  method RangeQuery(index: Index, field: string, start: int, end: int) returns (r: Fragment)
    ensures r == Range(index.queryField(field), RangeConditions(start, end))
  {
    var condition: seq<RangeCondition> := [];
    if start > 0 {
      condition := condition + [Compare(GTE, start)];
    }
    if end > 0 {
      condition := condition + [Compare(LTE, end)];
    }
    r := Range(index.queryField(field), condition);
  }
}

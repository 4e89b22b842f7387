/**
 * The filter composition of elastic/filter.go: range validation, the
 * existence, numeric-range and terms filters that append to caller-owned
 * clause lists, and the top-level `bool` query.
 */
module FilterComposition {
  import opened Optional
  import opened Fragments
  import opened Query

  /** A caller's numeric range (`filter.NumberRanges`); zero leaves that side unbounded. */
  datatype NumberRanges = NumberRanges(start: int, end: int)

  /** The ranges `CheckNumbers` rejects: both bounds zero, or a bounded end below the start. */
  predicate InvalidRange(n: NumberRanges)
  {
    (n.start == 0 && n.end == 0) || (n.end != 0 && n.start > n.end)
  }

  /** `CheckNumbers`: true iff some range, in any of the lists, is invalid. */
  method CheckNumbers(fields: seq<seq<NumberRanges>>) returns (invalid: bool)
    ensures invalid <==> exists a, b :: 0 <= a < |fields| && 0 <= b < |fields[a]| && InvalidRange(fields[a][b])
  {
    invalid := false;
    for i := 0 to |fields|
      invariant invalid <==> exists a, b :: 0 <= a < i && 0 <= b < |fields[a]| && InvalidRange(fields[a][b])
    {
      var numbers := fields[i];
      var j := 0;
      while j < |numbers|
        invariant 0 <= j <= |numbers|
        invariant invalid <==>
          (exists a, b :: 0 <= a < i && 0 <= b < |fields[a]| && InvalidRange(fields[a][b])) ||
          (exists b :: 0 <= b < j && InvalidRange(numbers[b]))
      {
        if InvalidRange(numbers[j]) {
          invalid := true;
          assert InvalidRange(fields[i][j]);
          break;
        }
        j := j + 1;
      }
    }
  }

  /** A caller-owned clause list, appended to through a pointer in the source. */
  class FilterList {
    var items: seq<Fragment>

    constructor (items: seq<Fragment>)
      ensures this.items == items
    {
      this.items := items;
    }
  }

  /** The existence check on a field, inside its nested scope when the field is nested. */
  function ExistsClause(index: Index, field: string): Fragment
  {
    var (p, nested) := index.isNestedField(field);
    if nested then NestedQuery(p, ExistsQuery(index, field)) else ExistsQuery(index, field)
  }

  /** `Exists`: one existence check per field, in field order, after the existing clauses. */
  method Exists(index: Index, filters: FilterList, fields: seq<string>)
    modifies filters
    ensures |filters.items| == |old(filters.items)| + |fields|
    ensures filters.items[..|old(filters.items)|] == old(filters.items)
    ensures forall k :: 0 <= k < |fields| ==> filters.items[|old(filters.items)| + k] == ExistsClause(index, fields[k])
  {
    for i := 0 to |fields|
      invariant |filters.items| == |old(filters.items)| + i
      invariant filters.items[..|old(filters.items)|] == old(filters.items)
      invariant forall k :: 0 <= k < i ==> filters.items[|old(filters.items)| + k] == ExistsClause(index, fields[k])
    {
      var field := fields[i];
      var existsQuery := ExistsQuery(index, field);
      var (p, nested) := index.isNestedField(field);
      if nested {
        existsQuery := NestedQuery(p, existsQuery);
      }
      filters.items := filters.items + [existsQuery];
    }
  }

  // ---------------------------------------------------------------------
  // Numeric ranges.

  /** The guard under which a range produces a range query. */
  predicate Emitted(n: NumberRanges)
  {
    n.start > 0 || n.end > 0
  }

  /** The range query `RangeQuery` builds for one range. */
  function RangeClause(index: Index, field: string, n: NumberRanges): Fragment
  {
    Range(index.queryField(field), RangeConditions(n.start, n.end))
  }

  /** The sub-queries of the multi-range case: one per emitted range, in order. */
  function RangeClauses(index: Index, field: string, numbers: seq<NumberRanges>): seq<Fragment>
  {
    if numbers == [] then []
    else
      var last := numbers[|numbers| - 1];
      RangeClauses(index, field, numbers[..|numbers| - 1]) + (if Emitted(last) then [RangeClause(index, field, last)] else [])
  }

  /**
   * What `NumberRange` appends: nothing for no range; for one range its query
   * when it is emitted; for several, one `should` query with minimum match 1
   * over the emitted ones, even when none is.
   */
  function NumberRangeClauses(index: Index, field: string, numbers: seq<NumberRanges>): (r: seq<Fragment>)
    ensures |r| <= 1
    ensures |r| == 1 <==> |numbers| >= 2 || (|numbers| == 1 && Emitted(numbers[0]))
    ensures |numbers| == 1 && Emitted(numbers[0]) ==> r == [RangeClause(index, field, numbers[0])]
    ensures |numbers| >= 2 ==> r == [BoolQuery([Clause(Should, RangeClauses(index, field, numbers)), AtLeastMatchOne])]
  {
    if |numbers| == 0 then []
    else if |numbers| == 1 then (if Emitted(numbers[0]) then [RangeClause(index, field, numbers[0])] else [])
    else [BoolQuery([Clause(Should, RangeClauses(index, field, numbers)), AtLeastMatchOne])]
  }

  /** `NumberRange`: appends the range filter for a field's ranges. */
  method NumberRange(index: Index, filters: FilterList, field: string, numbers: seq<NumberRanges>)
    modifies filters
    ensures filters.items == old(filters.items) + NumberRangeClauses(index, field, numbers)
  {
    if |numbers| == 1 {
      var start, end := numbers[0].start, numbers[0].end;
      if start > 0 || end > 0 {
        var q := RangeQuery(index, field, start, end);
        filters.items := filters.items + [q];
      }
    } else if |numbers| == 0 {
    } else {
      var subQueries: seq<Fragment> := [];
      for i := 0 to |numbers|
        invariant subQueries == RangeClauses(index, field, numbers[..i])
        invariant filters.items == old(filters.items)
      {
        assert numbers[..i + 1][..i] == numbers[..i];
        var start, end := numbers[i].start, numbers[i].end;
        if start > 0 || end > 0 {
          var q := RangeQuery(index, field, start, end);
          subQueries := subQueries + [q];
        }
      }
      assert numbers[..|numbers|] == numbers;
      filters.items := filters.items + [BoolQuery([Clause(Should, subQueries), AtLeastMatchOne])];
    }
  }

  /** The multi-range sub-queries keep the order of the ranges: they distribute over concatenation. */
  lemma {:induction false} RangeClausesConcat(index: Index, field: string, a: seq<NumberRanges>, b: seq<NumberRanges>)
    ensures RangeClauses(index, field, a + b) == RangeClauses(index, field, a) + RangeClauses(index, field, b)
  {
    if b != [] {
      var b' := b[..|b| - 1];
      assert (a + b)[..|a + b| - 1] == a + b';
      assert (a + b)[|a + b| - 1] == b[|b| - 1];
      RangeClausesConcat(index, field, a, b');
    } else {
      assert a + b == a;
    }
  }

  /** Every multi-range sub-query is the range query of some emitted range (returned as `k`). */
  lemma {:induction false} RangeClauseSource(index: Index, field: string, numbers: seq<NumberRanges>, q: Fragment) returns (k: nat)
    requires q in RangeClauses(index, field, numbers)
    ensures k < |numbers| && Emitted(numbers[k]) && q == RangeClause(index, field, numbers[k])
  {
    var last := |numbers| - 1;
    var init := numbers[..last];
    if q in RangeClauses(index, field, init) {
      k := RangeClauseSource(index, field, init, q);
      assert numbers[k] == init[k];
    } else {
      k := last;
    }
  }

  /** Every emitted range contributes its range query to the multi-range sub-queries. */
  lemma {:induction false} RangeClauseEmitted(index: Index, field: string, numbers: seq<NumberRanges>, k: nat)
    requires k < |numbers| && Emitted(numbers[k])
    ensures RangeClause(index, field, numbers[k]) in RangeClauses(index, field, numbers)
  {
    var last := |numbers| - 1;
    var init := numbers[..last];
    if k < last {
      assert init[k] == numbers[k];
      RangeClauseEmitted(index, field, init, k);
    }
  }

  // ---------------------------------------------------------------------
  // Terms with null handling.

  /** The negated existence check, when the field treats a missing value as matchable. */
  function NullValueQuery(index: Index, field: string, nullFields: set<string>): Option<Fragment>
  {
    if field in nullFields then Some(BoolQuery([Clause(MustNot, [ExistsClause(index, field)])])) else None
  }

  /** The terms match, nested only when the field is nested and null handling is active. */
  function TermsClause(index: Index, field: string, values: seq<Value>, nullFields: set<string>): Option<Fragment>
  {
    var (p, nested) := index.isNestedField(field);
    if |values| > 0 then
      Some(if NullValueQuery(index, field, nullFields).Some? && nested then NestedQuery(p, TermsQuery(index, field, values))
           else TermsQuery(index, field, values))
    else None
  }

  /**
   * What `Terms` appends to the parent list and to the filter list: at most
   * one fragment in all, placed by whether the field is null-handled and
   * whether values are given.
   */
  function TermsPlacement(index: Index, field: string, values: seq<Value>, nullFields: set<string>):
    (r: (seq<Fragment>, seq<Fragment>))
    ensures |r.0| + |r.1| <= 1
    ensures var (p, nested) := index.isNestedField(field);
      var notExists := BoolQuery([Clause(MustNot, [if nested then NestedQuery(p, ExistsQuery(index, field)) else ExistsQuery(index, field)])]);
      && (field in nullFields && |values| > 0 ==>
            r == ([BoolQuery([Clause(Should, [notExists,
                     if nested then NestedQuery(p, TermsQuery(index, field, values)) else TermsQuery(index, field, values)]),
                     AtLeastMatchOne])], []))
      && (field in nullFields && |values| == 0 ==> r == ([notExists], []))
      && (field !in nullFields && |values| > 0 ==> r == ([], [TermsQuery(index, field, values)]))
      && (field !in nullFields && |values| == 0 ==> r == ([], []))
  {
    var nullValueQuery := NullValueQuery(index, field, nullFields);
    var termsQuery := TermsClause(index, field, values, nullFields);
    if nullValueQuery.Some? && termsQuery.Some? then
      ([BoolQuery([Clause(Should, [nullValueQuery.value, termsQuery.value]), AtLeastMatchOne])], [])
    else if nullValueQuery.Some? then ([nullValueQuery.value], [])
    else if termsQuery.Some? then ([], [termsQuery.value])
    else ([], [])
  }

  /**
   * `Terms`: appends the terms filter of a field to `parent` or to `filters`
   * as `TermsPlacement` says; the two lists may be the same list.
   */
  method Terms(index: Index, parent: FilterList, filters: FilterList, field: string, values: seq<Value>, nullFields: set<string>)
    modifies parent, filters
    ensures var (toParent, toFilters) := TermsPlacement(index, field, values, nullFields);
      if parent != filters then
        parent.items == old(parent.items) + toParent && filters.items == old(filters.items) + toFilters
      else
        parent.items == old(parent.items) + toParent + toFilters
  {
    var nullValueQuery: Option<Fragment> := None;
    var termsQuery: Option<Fragment> := None;
    var (p, nested) := index.isNestedField(field);
    if field in nullFields {
      var q := ExistsQuery(index, field);
      if nested {
        q := NestedQuery(p, q);
      }
      nullValueQuery := Some(BoolQuery([Clause(MustNot, [q])]));
    }
    if |values| > 0 {
      var q := TermsQuery(index, field, values);
      if nullValueQuery.Some? && nested {
        q := NestedQuery(p, q);
      }
      termsQuery := Some(q);
    }
    if nullValueQuery.Some? && termsQuery.Some? {
      parent.items := parent.items + [BoolQuery([Clause(Should, [nullValueQuery.value, termsQuery.value]), AtLeastMatchOne])];
    } else if nullValueQuery.Some? {
      parent.items := parent.items + [nullValueQuery.value];
    } else if termsQuery.Some? {
      filters.items := filters.items + [termsQuery.value];
    }
  }

  // ---------------------------------------------------------------------
  // The top-level query.

  /** The clauses of a filter source; a nil source has none. */
  function FiltersOf(source: Option<seq<Fragment>>): seq<Fragment>
  {
    if source.Some? then source.value else []
  }

  /**
   * `DefaultQueryBuilder`: nil when neither source has a clause; otherwise
   * one `bool` query with a `filter` clause iff there are filters and a
   * `must_not` clause iff there are negated filters, in that order.
   */
  method DefaultQueryBuilder(filter: Option<seq<Fragment>>, not: Option<seq<Fragment>>) returns (r: Option<Fragment>)
    ensures r.None? <==> |FiltersOf(filter)| == 0 && |FiltersOf(not)| == 0
    ensures r.Some? ==> r.value.Bool?
    ensures r.Some? ==> (Clause(Filter, FiltersOf(filter)) in r.value.clauses <==> |FiltersOf(filter)| > 0)
    ensures r.Some? ==> (Clause(MustNot, FiltersOf(not)) in r.value.clauses <==> |FiltersOf(not)| > 0)
    ensures r.Some? ==> forall c :: c in r.value.clauses ==> c == Clause(Filter, FiltersOf(filter)) || c == Clause(MustNot, FiltersOf(not))
    ensures r.Some? ==> |r.value.clauses| == (if |FiltersOf(filter)| > 0 then 1 else 0) + (if |FiltersOf(not)| > 0 then 1 else 0)
    ensures r.Some? && |r.value.clauses| == 2 ==> r.value.clauses[0].kind == Filter
  {
    var clause: seq<BoolParam> := [];
    if filter.Some? {
      var filters := filter.value;
      if |filters| > 0 {
        clause := clause + [Clause(Filter, filters)];
      }
    }
    if not.Some? {
      var nots := not.value;
      if |nots| > 0 {
        clause := clause + [Clause(MustNot, nots)];
      }
    }
    if |clause| > 0 {
      return Some(BoolQuery(clause));
    }
    return None;
  }
}

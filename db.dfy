/**
 * The pure pieces of db/db.go: the page-size clamp applied by `PageCondition`
 * and the four predicates that classify database errors by their message.
 */
module Db {
  import opened Optional

  /** `defaultPageSize`: the limit used when the request gives none (or a non-positive one). */
  const DefaultPageSize: int := 10
  /** `maxPageSize`: the largest limit a request may ask for. */
  const MaxPageSize: int := 100

  /** `Page`: the `offset` and `limit` query parameters. */
  datatype Page = Page(offset: int, limit: int)

  /** What binding the request's query string into a `Page` produced. */
  datatype Bound = Bound(page: Page) | BindFailed(bindError: string)

  /** `rdb.Page(offset, limit)`: the paging condition handed to the database layer. */
  datatype Condition = PageLimit(offset: int, limit: int)

  /** `PageCondition`'s two results: a condition, or the binding error (and no condition). */
  datatype PageResult = Condition(cond: Condition) | Failed(err: string)

  /** The limit `PageCondition` keeps: a default for non-positive limits, capped at the maximum. */
  function ClampLimit(limit: int): (r: int)
    ensures 1 <= r <= MaxPageSize
    ensures limit <= 0 ==> r == DefaultPageSize
    ensures limit > MaxPageSize ==> r == MaxPageSize
    ensures 1 <= limit <= MaxPageSize ==> r == limit
  {
    if limit <= 0 then DefaultPageSize
    else if limit > MaxPageSize then MaxPageSize
    else limit
  }

  /** Clamping an already clamped limit changes nothing. */
  lemma ClampIdempotent(limit: int)
    ensures ClampLimit(ClampLimit(limit)) == ClampLimit(limit)
  {
  }

  /**
   * `PageCondition`: on a successful bind, a paging condition with the
   * offset untouched and the limit clamped; otherwise the binding error.
   */
  method PageCondition(bound: Bound) returns (r: PageResult)
    ensures bound.BindFailed? <==> r.Failed?
    ensures bound.BindFailed? ==> r.err == bound.bindError
    ensures bound.Bound? ==> r.cond == PageLimit(bound.page.offset, ClampLimit(bound.page.limit))
    ensures bound.Bound? ==> 1 <= r.cond.limit <= MaxPageSize
  {
    match bound
    case BindFailed(e) =>
      r := Failed(e);
    case Bound(p) =>
      var page := p;
      if page.limit <= 0 {
        page := page.(limit := DefaultPageSize);
      } else if page.limit > MaxPageSize {
        page := page.(limit := MaxPageSize);
      }
      r := Condition(PageLimit(page.offset, page.limit));
  }

  /** `sub` occurs in `s` starting at index `k`. */
  predicate OccursAt(s: string, sub: string, k: int) {
    0 <= k && k + |sub| <= |s| && s[k..k + |sub|] == sub
  }

  /** `sub` occurs somewhere in `s` (the empty string occurs in every string). */
  predicate Contains(s: string, sub: string) {
    exists k :: 0 <= k <= |s| && OccursAt(s, sub, k)
  }

  /** The first occurrence of `sub` in `s` at or after `i`, or -1. */
  function IndexFrom(s: string, sub: string, i: nat): (r: int)
    requires i <= |s|
    ensures r == -1 || (i <= r && OccursAt(s, sub, r))
    ensures forall k :: i <= k <= |s| && (r == -1 || k < r) ==> !OccursAt(s, sub, k)
    decreases |s| - i
  {
    if OccursAt(s, sub, i) then i
    else if i == |s| then -1
    else IndexFrom(s, sub, i + 1)
  }

  /**
   * `strings.Index` as the classifiers use it: the character offset of the
   * first occurrence of `sub` in `s`, or -1 if there is none.
   */
  function Index(s: string, sub: string): (r: int)
    ensures r == -1 <==> !Contains(s, sub)
    ensures r != -1 ==> OccursAt(s, sub, r) && forall k :: 0 <= k < r ==> !OccursAt(s, sub, k)
  {
    IndexFrom(s, sub, 0)
  }

  /** A Go `error` is `nil` (None) or carries its `Error()` text. */
  type Error = Option<string>

  /** The shared shape of the four predicates: a non-nil error whose text mentions `text`. */
  function Mentions(err: Error, text: string): (r: bool)
    ensures r <==> err.Some? && Contains(err.value, text)
  {
    err != None && Index(err.value, text) >= 0
  }

  const MissValueText: string := "doesn't have a default value"
  const DuplicateKeyText: string := "Duplicate entry"
  const NotFoundText: string := "record not found"
  const ConnectionRefusedText: string := "connection refused"

  /** `IsMissValueError`: a column without a default value was left out of an insert. */
  function IsMissValueError(err: Error): (r: bool)
    ensures r <==> err.Some? && Contains(err.value, MissValueText)
  {
    Mentions(err, MissValueText)
  }

  /** `IsDuplicateKeyError`: an insert or update collided with a unique key. */
  function IsDuplicateKeyError(err: Error): (r: bool)
    ensures r <==> err.Some? && Contains(err.value, DuplicateKeyText)
  {
    Mentions(err, DuplicateKeyText)
  }

  /** `IsNotFoundError`: a lookup found no record. */
  function IsNotFoundError(err: Error): (r: bool)
    ensures r <==> err.Some? && Contains(err.value, NotFoundText)
  {
    Mentions(err, NotFoundText)
  }

  /** `IsConnectionRefusedError`: the database server refused the connection. */
  function IsConnectionRefusedError(err: Error): (r: bool)
    ensures r <==> err.Some? && Contains(err.value, ConnectionRefusedText)
  {
    Mentions(err, ConnectionRefusedText)
  }

  /** A nil error is none of the four kinds. */
  lemma NilIsNoKnownError()
    ensures !IsMissValueError(None) && !IsDuplicateKeyError(None)
    ensures !IsNotFoundError(None) && !IsConnectionRefusedError(None)
  {
  }

  /** A duplicate-key message with the phrase in the middle of its text is recognised. */
  lemma DuplicateKeyExample()
    ensures IsDuplicateKeyError(Some("Error 1062: " + DuplicateKeyText + " 'a' for key 'PRIMARY'"))
  {
    var prefix, m := "Error 1062: ", "Error 1062: " + DuplicateKeyText + " 'a' for key 'PRIMARY'";
    assert m[|prefix|..|prefix| + |DuplicateKeyText|] == DuplicateKeyText;
    assert OccursAt(m, DuplicateKeyText, |prefix|);
  }

  /** A message shorter than a phrase cannot mention it. */
  lemma ShortMessageExample()
    ensures !IsNotFoundError(Some("timeout")) && !IsConnectionRefusedError(Some("timeout"))
  {
  }

}

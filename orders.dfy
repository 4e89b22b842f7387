/**
 * The scope-ordering list of elastic/filter.go (`fieldOrder`, `fieldOrders`):
 * one record per distinct scope name with the smallest position appended for
 * it, kept sorted by position, largest first.
 */
module ScopeOrders {
  import opened Optional

  /** A `fieldOrder` record. */
  datatype FieldOrder = FieldOrder(name: string, pos: int)

  /** Sorted by position, largest first (the order `Less` defines). */
  predicate SortedDesc(s: seq<FieldOrder>)
  {
    forall a, b :: 0 <= a < b < |s| ==> s[a].pos >= s[b].pos
  }

  predicate StrictlyDesc(s: seq<FieldOrder>)
  {
    forall a, b :: 0 <= a < b < |s| ==> s[a].pos > s[b].pos
  }

  /** No two records share a name. */
  predicate NamesUnique(s: seq<FieldOrder>)
  {
    forall a, b :: 0 <= a < b < |s| ==> s[a].name != s[b].name
  }

  predicate HasName(s: seq<FieldOrder>, name: string)
  {
    exists k :: 0 <= k < |s| && s[k].name == name
  }

  /** The names of the records, in list order. */
  function Names(s: seq<FieldOrder>): (r: seq<string>)
    ensures |r| == |s| && forall k :: 0 <= k < |s| ==> r[k] == s[k].name
  {
    if s == [] then [] else [s[0].name] + Names(s[1..])
  }

  /** The position recorded for `name` (the first record with that name), if any. */
  function PosOf(s: seq<FieldOrder>, name: string): (r: Option<int>)
    ensures r.None? <==> !HasName(s, name)
  {
    if s == [] then None
    else if s[0].name == name then Some(s[0].pos)
    else
      var r := PosOf(s[1..], name);
      assert HasName(s[1..], name) ==> HasName(s, name) by {
        if HasName(s[1..], name) {
          var k :| 0 <= k < |s| - 1 && s[1..][k].name == name;
          assert s[k + 1].name == name;
        }
      }
      r
  }

  /**
   * The list as `append` leaves it before sorting: the first record named
   * `name` has its position lowered to `pos` if that is smaller, and a new
   * record goes at the end when there is none.
   */
  function Updated(s: seq<FieldOrder>, name: string, pos: int): seq<FieldOrder>
  {
    if s == [] then [FieldOrder(name, pos)]
    else if s[0].name == name then (if s[0].pos > pos then [FieldOrder(name, pos)] + s[1..] else s)
    else [s[0]] + Updated(s[1..], name, pos)
  }

  /** The list without its records named `name`. */
  function Remove(s: seq<FieldOrder>, name: string): seq<FieldOrder>
  {
    if s == [] then []
    else if s[0].name == name then Remove(s[1..], name)
    else [s[0]] + Remove(s[1..], name)
  }

  lemma {:induction false} RemoveMembers(s: seq<FieldOrder>, name: string)
    ensures forall x :: x in Remove(s, name) <==> x in s && x.name != name
  {
    if s != [] {
      RemoveMembers(s[1..], name);
      assert s == [s[0]] + s[1..];
    }
  }

  /**
   * The records after `append(parents[k], k)` for k = |parents|-1 down to i:
   * the scopes of parents[i..], each once, at its first position, the scope
   * used first (parents[i]) at the end.
   */
  function OrdersFrom(parents: seq<string>, i: nat): seq<FieldOrder>
    requires i <= |parents|
    decreases |parents| - i
  {
    if i == |parents| then []
    else Remove(OrdersFrom(parents, i + 1), parents[i]) + [FieldOrder(parents[i], i)]
  }

  class FieldOrders {
    var records: seq<FieldOrder>

    /** The invariant `append` keeps. */
    ghost predicate Valid()
      reads this
    {
      SortedDesc(records) && NamesUnique(records)
    }

    /** `newOrders`: an empty list. */
    constructor ()
      ensures Valid() && records == []
    {
      records := [];
    }

    /** `Len`. */
    function Len(): (n: nat)
      reads this
      ensures n == |records|
    {
      |records|
    }

    /** `Less`: entry i sorts before entry j when its position is larger. */
    predicate Less(i: nat, j: nat)
      reads this
      requires i < |records| && j < |records|
      ensures Less(i, j) <==> records[i].pos > records[j].pos
    {
      records[i].pos > records[j].pos
    }

    /** `Swap`. */
    method Swap(i: nat, j: nat)
      requires i < |records| && j < |records|
      modifies this
      ensures records == old(records)[i := old(records)[j]][j := old(records)[i]]
      ensures multiset(records) == multiset(old(records))
      ensures NamesUnique(old(records)) ==> NamesUnique(records)
    {
      if NamesUnique(records) {
        SwapKeepsUnique(records, i, j);
      }
      records := records[i := records[j]][j := records[i]];
    }

    /** `get`: the record at `pos`, or nil past the end. */
    function Get(pos: nat): (r: Option<FieldOrder>)
      reads this
      ensures r.None? <==> pos >= |records|
      ensures r.Some? ==> r.value == records[pos]
    {
      if pos >= |records| then None else Some(records[pos])
    }

    /**
     * `sort.Sort(o)`: sorts through `Less` and `Swap`.  Only its contract,
     * a permutation sorted by `Less`, is relied upon (ties are unordered).
     */
    method Sort()
      requires NamesUnique(records)
      modifies this
      ensures SortedDesc(records) && NamesUnique(records)
      ensures multiset(records) == multiset(old(records))
    {
      var i := 1;
      while i < Len()
        invariant |records| == |old(records)|
        invariant SortedDesc(records[..if i <= |records| then i else |records|])
        invariant NamesUnique(records)
        invariant multiset(records) == multiset(old(records))
      {
        Insert(i);
        i := i + 1;
      }
    }

    /** One pass of the insertion: moves record i down past the larger positions before it. */
    method Insert(i: nat)
      requires i < |records| && SortedDesc(records[..i]) && NamesUnique(records)
      modifies this
      ensures |records| == |old(records)| && SortedDesc(records[..i + 1]) && NamesUnique(records)
      ensures multiset(records) == multiset(old(records))
    {
      var j := i;
      while j > 0 && Less(j, j - 1)
        invariant 0 <= j <= i < |records|
        invariant |records| == |old(records)|
        invariant forall a, b :: 0 <= a < b <= i && b != j ==> records[a].pos >= records[b].pos
        invariant 0 < j < i ==> records[j - 1].pos >= records[j + 1].pos
        invariant NamesUnique(records)
        invariant multiset(records) == multiset(old(records))
      {
        Swap(j, j - 1);
        j := j - 1;
      }
    }

    /** The index of the first record named `name`, or the length when there is none. */
    method Find(name: string) returns (i: nat)
      ensures i <= |records|
      ensures forall k :: 0 <= k < i ==> records[k].name != name
      ensures i < |records| ==> records[i].name == name
    {
      i := 0;
      while i < Len() && records[i].name != name
        invariant i <= |records|
        invariant forall k :: 0 <= k < i ==> records[k].name != name
      {
        i := i + 1;
      }
    }

    /**
     * `append(name, pos)`: lowers the position of an existing record to `pos`
     * when that is smaller, or adds a new record, then re-sorts; a record
     * whose position is already no larger is left as it is, unsorted.
     */
    method Append(name: string, pos: int)
      requires Valid()
      modifies this
      ensures Valid()
      ensures multiset(records) == multiset(Updated(old(records), name, pos))
      ensures forall n :: PosOf(records, n) == PosOf(Updated(old(records), name, pos), n)
      ensures PosOf(old(records), name).Some? && PosOf(old(records), name).value <= pos ==> records == old(records)
    {
      var i := Find(name);
      ghost var target := Updated(records, name, pos);
      UpdatedPositions(records, name, pos);
      var found := i < Len();
      if found {
        assert PosOf(records, name) == Some(records[i].pos) by {
          PosOfAt(records, name, i);
        }
        if records[i].pos <= pos {
          assert target == records by {
            UpdatedAt(records, name, pos, i);
          }
          return;
        }
        assert target == records[i := FieldOrder(name, pos)] by {
          UpdatedAt(records, name, pos, i);
        }
        records := records[i := FieldOrder(name, pos)];
      } else {
        assert PosOf(records, name) == None by {
          assert !HasName(records, name);
        }
        assert target == records + [FieldOrder(name, pos)] by {
          UpdatedAbsent(records, name, pos);
        }
        records := records + [FieldOrder(name, pos)];
      }
      if found || Len() > 1 {
        Sort();
      } else {
        assert records == target == [FieldOrder(name, pos)];
      }
      PermutationKeepsPositions(records, target);
    }
  }

  /** Exchanging two records keeps the names distinct. */
  lemma SwapKeepsUnique(s: seq<FieldOrder>, i: nat, j: nat)
    requires i < |s| && j < |s| && NamesUnique(s)
    ensures NamesUnique(s[i := s[j]][j := s[i]])
  {
    var t := s[i := s[j]][j := s[i]];
    forall a, b | 0 <= a < b < |t| ensures t[a].name != t[b].name {
      var a' := if a == j then i else if a == i then j else a;
      var b' := if b == j then i else if b == i then j else b;
      assert t[a] == s[a'] && t[b] == s[b'];
    }
  }

  // ---------------------------------------------------------------------
  // Lemmas about `append` (`Updated`).

  lemma {:induction false} PosOfAt(s: seq<FieldOrder>, name: string, k: nat)
    requires k < |s| && s[k].name == name
    requires forall j :: 0 <= j < k ==> s[j].name != name
    ensures PosOf(s, name) == Some(s[k].pos)
  {
    if k > 0 {
      PosOfAt(s[1..], name, k - 1);
    }
  }

  lemma {:induction false} UpdatedAt(s: seq<FieldOrder>, name: string, pos: int, k: nat)
    requires k < |s| && s[k].name == name
    requires forall j :: 0 <= j < k ==> s[j].name != name
    ensures Updated(s, name, pos) == if s[k].pos > pos then s[k := FieldOrder(name, pos)] else s
  {
    if k > 0 {
      UpdatedAt(s[1..], name, pos, k - 1);
      assert s == [s[0]] + s[1..];
      if s[k].pos > pos {
        assert s[k := FieldOrder(name, pos)] == [s[0]] + s[1..][k - 1 := FieldOrder(name, pos)];
      }
    }
  }

  lemma {:induction false} UpdatedAbsent(s: seq<FieldOrder>, name: string, pos: int)
    requires forall j :: 0 <= j < |s| ==> s[j].name != name
    ensures Updated(s, name, pos) == s + [FieldOrder(name, pos)]
  {
    if s != [] {
      UpdatedAbsent(s[1..], name, pos);
      assert s == [s[0]] + s[1..];
    }
  }

  /** Dropping the first record keeps names unique. */
  lemma UniqueTail(s: seq<FieldOrder>)
    requires s != [] && NamesUnique(s)
    ensures NamesUnique(s[1..])
  {
    forall a, b | 0 <= a < b < |s| - 1 ensures s[1..][a].name != s[1..][b].name {
      assert s[1..][a] == s[a + 1] && s[1..][b] == s[b + 1];
    }
  }

  /** With unique names, the first record's name occurs nowhere after it. */
  lemma UniqueHeadAbsent(s: seq<FieldOrder>)
    requires s != [] && NamesUnique(s)
    ensures forall x :: x in s[1..] ==> x.name != s[0].name
  {
    forall x | x in s[1..] ensures x.name != s[0].name {
      var k :| 0 <= k < |s| - 1 && s[1..][k] == x;
      assert s[k + 1] == x;
    }
  }

  /** In a list with unique names, a name's position is given by membership alone. */
  lemma {:induction false} PosOfMember(s: seq<FieldOrder>, name: string, p: int)
    requires NamesUnique(s)
    ensures PosOf(s, name) == Some(p) <==> FieldOrder(name, p) in s
  {
    if s != [] {
      UniqueTail(s);
      PosOfMember(s[1..], name, p);
      assert s == [s[0]] + s[1..];
      if s[0].name == name {
        UniqueHeadAbsent(s);
      }
    }
  }

  /** Two permutations of each other with unique names record the same positions. */
  lemma PermutationKeepsPositions(s: seq<FieldOrder>, t: seq<FieldOrder>)
    requires multiset(s) == multiset(t) && NamesUnique(s) && NamesUnique(t)
    ensures forall n :: PosOf(s, n) == PosOf(t, n)
  {
    forall n ensures PosOf(s, n) == PosOf(t, n) {
      if PosOf(s, n).Some? {
        var p := PosOf(s, n).value;
        PosOfMember(s, n, p);
        assert FieldOrder(n, p) in multiset(t);
        PosOfMember(t, n, p);
      } else if PosOf(t, n).Some? {
        var p := PosOf(t, n).value;
        PosOfMember(t, n, p);
        assert FieldOrder(n, p) in multiset(s);
        PosOfMember(s, n, p);
      }
    }
  }

  /**
   * What `append` does to the recorded positions: the appended name ends up
   * with the smaller of its old position and `pos` (or `pos` if it is new),
   * every other name keeps its position, and names stay unique.
   */
  lemma {:induction false} UpdatedPositions(s: seq<FieldOrder>, name: string, pos: int)
    requires NamesUnique(s)
    ensures NamesUnique(Updated(s, name, pos))
    ensures PosOf(Updated(s, name, pos), name) ==
      Some(if PosOf(s, name).Some? && PosOf(s, name).value <= pos then PosOf(s, name).value else pos)
    ensures forall n :: n != name ==> PosOf(Updated(s, name, pos), n) == PosOf(s, n)
  {
    if s == [] {
    } else {
      var rest := s[1..];
      UniqueTail(s);
      if s[0].name == name {
        if s[0].pos > pos {
          var u := [FieldOrder(name, pos)] + rest;
          assert NamesUnique(u) by {
            forall a, b | 0 <= a < b < |u| ensures u[a].name != u[b].name {
              assert u[b] == s[b];
              if a > 0 { assert u[a] == s[a]; }
            }
          }
          assert forall n :: n != name ==> PosOf(u, n) == PosOf(rest, n);
        }
      } else {
        UpdatedPositions(rest, name, pos);
        var u := [s[0]] + Updated(rest, name, pos);
        assert u[1..] == Updated(rest, name, pos);
        assert !HasName(rest, s[0].name) by {
          forall k | 0 <= k < |rest| ensures rest[k].name != s[0].name {
            assert rest[k] == s[k + 1];
          }
        }
        assert NamesUnique(u) by {
          forall a, b | 0 <= a < b < |u| ensures u[a].name != u[b].name {
            if a == 0 {
              var n0 := s[0].name;
              assert PosOf(rest, n0).None?;
              if n0 == name {
              } else {
                assert PosOf(Updated(rest, name, pos), n0).None?;
                assert u[b] == Updated(rest, name, pos)[b - 1];
              }
            }
          }
        }
      }
    }
  }

  // ---------------------------------------------------------------------
  // Lemmas about the records the grouping loop builds (`OrdersFrom`).

  /** The record at index a of Remove(s, name) comes from some index of s. */
  lemma {:induction false} RemoveIndex(s: seq<FieldOrder>, name: string, a: nat) returns (a': nat)
    requires a < |Remove(s, name)|
    ensures a' < |s| && Remove(s, name)[a] == s[a']
  {
    var rest := s[1..];
    if s[0].name == name {
      assert Remove(s, name) == Remove(rest, name);
      a' := RemoveIndex(rest, name, a);
      a' := a' + 1;
    } else if a == 0 {
      a' := 0;
    } else {
      assert Remove(s, name) == [s[0]] + Remove(rest, name);
      a' := RemoveIndex(rest, name, a - 1);
      a' := a' + 1;
    }
  }

  /** Remove(s, name) is a subsequence of s: it keeps the relative order of what it keeps. */
  lemma {:induction false} RemoveOrdered(s: seq<FieldOrder>, name: string, a: nat, b: nat) returns (a': nat, b': nat)
    requires a < b < |Remove(s, name)|
    ensures a' < b' < |s| && Remove(s, name)[a] == s[a'] && Remove(s, name)[b] == s[b']
  {
    var rest := s[1..];
    var r := Remove(rest, name);
    if s[0].name == name {
      assert Remove(s, name) == r;
      var c, d := RemoveOrdered(rest, name, a, b);
      assert rest[c] == s[c + 1] && rest[d] == s[d + 1];
      a', b' := c + 1, d + 1;
    } else {
      assert Remove(s, name) == [s[0]] + r;
      if a == 0 {
        var k := RemoveIndex(rest, name, b - 1);
        assert Remove(s, name)[b] == r[b - 1] == rest[k] == s[k + 1];
        a', b' := 0, k + 1;
      } else {
        var c, d := RemoveOrdered(rest, name, a - 1, b - 1);
        assert Remove(s, name)[a] == r[a - 1] == rest[c] == s[c + 1];
        assert Remove(s, name)[b] == r[b - 1] == rest[d] == s[d + 1];
        a', b' := c + 1, d + 1;
      }
    }
  }

  lemma RemoveKeepsOrder(s: seq<FieldOrder>, name: string)
    ensures SortedDesc(s) ==> SortedDesc(Remove(s, name))
    ensures StrictlyDesc(s) ==> StrictlyDesc(Remove(s, name))
    ensures NamesUnique(s) ==> NamesUnique(Remove(s, name))
  {
    var r := Remove(s, name);
    forall a, b | 0 <= a < b < |r|
      ensures (SortedDesc(s) ==> r[a].pos >= r[b].pos)
      ensures (StrictlyDesc(s) ==> r[a].pos > r[b].pos)
      ensures (NamesUnique(s) ==> r[a].name != r[b].name)
    {
      var a', b' := RemoveOrdered(s, name, a, b);
    }
  }

  /**
   * Each record of OrdersFrom(parents, i) sits at the first position at or
   * after i where its name occurs.
   */
  lemma {:induction false} OrdersFromPositions(parents: seq<string>, i: nat)
    requires i <= |parents|
    decreases |parents| - i
    ensures forall x :: x in OrdersFrom(parents, i) ==>
      i <= x.pos < |parents| && parents[x.pos] == x.name &&
      forall j :: i <= j < x.pos ==> parents[j] != x.name
  {
    if i < |parents| {
      OrdersFromPositions(parents, i + 1);
      RemoveMembers(OrdersFrom(parents, i + 1), parents[i]);
    }
  }

  /** Every name of parents[i..] has a record in OrdersFrom(parents, i). */
  lemma {:induction false} OrdersFromCovers(parents: seq<string>, i: nat)
    requires i <= |parents|
    decreases |parents| - i
    ensures forall j :: i <= j < |parents| ==> HasName(OrdersFrom(parents, i), parents[j])
  {
    if i < |parents| {
      OrdersFromCovers(parents, i + 1);
      var prev := OrdersFrom(parents, i + 1);
      RemoveMembers(prev, parents[i]);
      var r := Remove(prev, parents[i]);
      var o := OrdersFrom(parents, i);
      assert o == r + [FieldOrder(parents[i], i)];
      forall j | i <= j < |parents| ensures HasName(o, parents[j]) {
        if parents[j] == parents[i] {
          assert o[|o| - 1].name == parents[i];
        } else {
          var k :| 0 <= k < |prev| && prev[k].name == parents[j];
          assert prev[k] in r;
          var m :| 0 <= m < |r| && r[m] == prev[k];
          assert o[m] == r[m];
        }
      }
    }
  }

  /**
   * The shape of the records after the grouping loop has appended
   * parents[|parents|-1] .. parents[i]: strictly sorted by position, largest
   * first, with unique names.
   */
  lemma {:induction false} OrdersFromShape(parents: seq<string>, i: nat)
    requires i <= |parents|
    decreases |parents| - i
    ensures StrictlyDesc(OrdersFrom(parents, i)) && NamesUnique(OrdersFrom(parents, i))
  {
    if i < |parents| {
      OrdersFromShape(parents, i + 1);
      OrdersFromPositions(parents, i + 1);
      var prev := OrdersFrom(parents, i + 1);
      var p := parents[i];
      RemoveKeepsOrder(prev, p);
      RemoveMembers(prev, p);
      var r := Remove(prev, p);
      var o := OrdersFrom(parents, i);
      assert o == r + [FieldOrder(p, i)];
      assert StrictlyDesc(o) by {
        forall a, b | 0 <= a < b < |o| ensures o[a].pos > o[b].pos {
          assert o[a] == r[a] && r[a] in prev;
          if b < |r| { assert o[b] == r[b]; }
        }
      }
      assert NamesUnique(o) by {
        forall a, b | 0 <= a < b < |o| ensures o[a].name != o[b].name {
          assert o[a] == r[a] && r[a] in r;
          if b < |r| { assert o[b] == r[b]; }
        }
      }
    }
  }

  /** Of two permutations, one sorted and one strictly sorted, the heads agree. */
  lemma SortedPermutationHead(s: seq<FieldOrder>, t: seq<FieldOrder>)
    requires s != [] && SortedDesc(s) && StrictlyDesc(t) && multiset(s) == multiset(t)
    ensures t != [] && s[0] == t[0]
  {
    assert s[0] in multiset(t);
    assert t[0] in multiset(s);
    var k :| 0 <= k < |t| && t[k] == s[0];
    var m :| 0 <= m < |s| && s[m] == t[0];
    assert s[0].pos >= s[m].pos;
  }

  lemma SortedTail(s: seq<FieldOrder>)
    requires s != [] && SortedDesc(s)
    ensures SortedDesc(s[1..])
  {
    forall a, b | 0 <= a < b < |s| - 1 ensures s[1..][a].pos >= s[1..][b].pos {
      assert s[1..][a] == s[a + 1] && s[1..][b] == s[b + 1];
    }
  }

  lemma StrictTail(s: seq<FieldOrder>)
    requires s != [] && StrictlyDesc(s)
    ensures StrictlyDesc(s[1..])
  {
    forall a, b | 0 <= a < b < |s| - 1 ensures s[1..][a].pos > s[1..][b].pos {
      assert s[1..][a] == s[a + 1] && s[1..][b] == s[b + 1];
    }
  }

  lemma MultisetTail(s: seq<FieldOrder>, t: seq<FieldOrder>)
    requires s != [] && t != [] && s[0] == t[0] && multiset(s) == multiset(t)
    ensures multiset(s[1..]) == multiset(t[1..])
  {
    assert s == [s[0]] + s[1..] && t == [t[0]] + t[1..];
    assert multiset(s) == multiset{s[0]} + multiset(s[1..]);
    assert multiset(t) == multiset{s[0]} + multiset(t[1..]);
    forall x ensures multiset(s[1..])[x] == multiset(t[1..])[x] {
      assert multiset(s)[x] == multiset{s[0]}[x] + multiset(s[1..])[x];
      assert multiset(t)[x] == multiset{s[0]}[x] + multiset(t[1..])[x];
    }
  }

  /** A list sorted by `Less` that is a permutation of a strictly sorted one is that list. */
  lemma {:induction false} SortedPermutationUnique(s: seq<FieldOrder>, t: seq<FieldOrder>)
    requires SortedDesc(s) && StrictlyDesc(t) && multiset(s) == multiset(t)
    ensures s == t
  {
    if s == [] {
      assert |t| == |multiset(t)| == 0;
    } else {
      SortedPermutationHead(s, t);
      MultisetTail(s, t);
      SortedTail(s);
      StrictTail(t);
      SortedPermutationUnique(s[1..], t[1..]);
      assert s == [s[0]] + s[1..] && t == [t[0]] + t[1..];
    }
  }

  /** In a list with unique names, lowering one name's position is removing it and re-adding it. */
  lemma {:induction false} UpdatedIsRemoveThenAdd(s: seq<FieldOrder>, name: string, pos: int)
    requires NamesUnique(s)
    requires forall x :: x in s ==> x.pos > pos
    ensures multiset(Updated(s, name, pos)) == multiset(Remove(s, name) + [FieldOrder(name, pos)])
  {
    if s != [] {
      var rest := s[1..];
      assert s == [s[0]] + rest;
      UniqueTail(s);
      if s[0].name == name {
        UniqueHeadAbsent(s);
        RemoveAbsent(rest, name);
      } else {
        UpdatedIsRemoveThenAdd(rest, name, pos);
      }
    }
  }

  lemma {:induction false} RemoveAbsent(s: seq<FieldOrder>, name: string)
    requires forall x :: x in s ==> x.name != name
    ensures Remove(s, name) == s
  {
    if s != [] {
      assert s[0] in s;
      RemoveAbsent(s[1..], name);
      assert s == [s[0]] + s[1..];
    }
  }

  /** One step of the grouping loop: `append(parents[i], i)` on OrdersFrom(i+1) gives OrdersFrom(i). */
  lemma AppendStep(parents: seq<string>, i: nat, after: seq<FieldOrder>)
    requires i < |parents|
    requires SortedDesc(after)
    requires multiset(after) == multiset(Updated(OrdersFrom(parents, i + 1), parents[i], i))
    ensures after == OrdersFrom(parents, i)
  {
    OrdersFromShape(parents, i + 1);
    OrdersFromPositions(parents, i + 1);
    OrdersFromShape(parents, i);
    UpdatedIsRemoveThenAdd(OrdersFrom(parents, i + 1), parents[i], i);
    SortedPermutationUnique(after, OrdersFrom(parents, i));
  }
}

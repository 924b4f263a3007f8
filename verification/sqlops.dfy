/**
 * The relational operators the blog's queries are built from, over a table
 * held as a sequence of rows: `WHERE` (Filter), `ORDER BY` (SortBy),
 * `LIMIT` / `OFFSET` (Page).
 */
module SqlOps {

  /** `le` is an ordering by a sort key: any two rows compare, and comparison chains. */
  ghost predicate TotalPreorder<T(!new)>(le: (T, T) -> bool) {
    && (forall a, b :: le(a, b) || le(b, a))
    && (forall a, b, c :: le(a, b) && le(b, c) ==> le(a, c))
  }

  /** Every row stands in `rel` to every row after it: sortedness, or a uniqueness constraint. */
  ghost predicate Pairwise<T>(s: seq<T>, rel: (T, T) -> bool) {
    forall i, j :: 0 <= i < j < |s| ==> rel(s[i], s[j])
  }

  ghost predicate SortedBy<T>(s: seq<T>, le: (T, T) -> bool) {
    Pairwise(s, le)
  }

  /** `WHERE keep`: the rows that satisfy `keep`, in their original order. */
  function Filter<T>(s: seq<T>, keep: T -> bool): (r: seq<T>)
    ensures |r| <= |s|
    ensures forall i :: 0 <= i < |r| ==> keep(r[i])
  {
    if s == [] then []
    else (if keep(s[0]) then [s[0]] else []) + Filter(s[1..], keep)
  }

  /** A row that satisfies `keep` is kept as many times as the table holds it; any other row is dropped. */
  lemma {:induction false} FilterCount<T(!new)>(s: seq<T>, keep: T -> bool)
    ensures forall x :: multiset(Filter(s, keep))[x] == if keep(x) then multiset(s)[x] else 0
  {
    if s != [] {
      FilterCount(s[1..], keep);
      assert s == [s[0]] + s[1..];
    }
  }

  /** The rows kept are exactly the rows of the table that satisfy `keep`. */
  lemma FilterMembers<T(!new)>(s: seq<T>, keep: T -> bool)
    ensures forall x :: x in Filter(s, keep) <==> x in s && keep(x)
  {
    FilterCount(s, keep);
    forall x
      ensures x in Filter(s, keep) <==> x in s && keep(x)
    {
      assert x in Filter(s, keep) <==> x in multiset(Filter(s, keep));
      assert x in s <==> x in multiset(s);
    }
  }

  /** Filtering distributes over concatenation of tables. */
  lemma {:induction false} FilterAppend<T(!new)>(a: seq<T>, b: seq<T>, keep: T -> bool)
    ensures Filter(a + b, keep) == Filter(a, keep) + Filter(b, keep)
  {
    if a == [] {
      assert a + b == b;
    } else {
      var head := if keep(a[0]) then [a[0]] else [];
      FilterAppend(a[1..], b, keep);
      assert (a + b)[0] == a[0];
      assert (a + b)[1..] == a[1..] + b;
      assert Filter(a + b, keep) == head + Filter(a[1..] + b, keep);
      assert Filter(a, keep) == head + Filter(a[1..], keep);
      assert head + (Filter(a[1..], keep) + Filter(b, keep)) == (head + Filter(a[1..], keep)) + Filter(b, keep);
    }
  }

  /** Dropping rows keeps the rows that remain in order, and a unique column unique. */
  lemma {:induction false} FilterKeepsPairwise<T(!new)>(s: seq<T>, keep: T -> bool, le: (T, T) -> bool)
    requires Pairwise(s, le)
    ensures Pairwise(Filter(s, keep), le)
  {
    if s != [] {
      var rest := Filter(s[1..], keep);
      FilterKeepsPairwise(s[1..], keep, le);
      if keep(s[0]) {
        var r := Filter(s, keep);
        assert r == [s[0]] + rest;
        FilterMembers(s[1..], keep);
        forall j | 0 < j < |r|
          ensures le(s[0], r[j])
        {
          assert rest[j - 1] in rest;
          var k :| 0 <= k < |s[1..]| && s[1..][k] == rest[j - 1];
          assert s[k + 1] == rest[j - 1];
        }
      }
    }
  }

  /** `LIMIT limit OFFSET offset`: at most `limit` rows, starting at row `offset`. */
  function Page<T>(s: seq<T>, offset: nat, limit: nat): (r: seq<T>)
    ensures |r| <= limit
    ensures offset >= |s| ==> r == []
    ensures offset < |s| ==> |r| == if |s| - offset < limit then |s| - offset else limit
    ensures forall k :: 0 <= k < |r| ==> offset + k < |s| && r[k] == s[offset + k]
  {
    if offset >= |s| then []
    else if |s| - offset <= limit then s[offset..]
    else s[offset..offset + limit]
  }

  /**
   * `LIMIT` on an ordered table keeps a prefix: a row it leaves out means
   * the page is full, and that row may follow every row on it.
   */
  lemma LimitLeavesLater<T>(s: seq<T>, limit: nat, le: (T, T) -> bool, x: T)
    requires SortedBy(s, le) && x in s && x !in Page(s, 0, limit)
    ensures |Page(s, 0, limit)| == limit
    ensures forall i :: 0 <= i < limit ==> le(Page(s, 0, limit)[i], x)
  {
    var r := Page(s, 0, limit);
    var k :| 0 <= k < |s| && s[k] == x;
    assert forall i :: 0 <= i < |r| ==> s[i] in r;
    assert k >= |r|;
    forall i | 0 <= i < limit
      ensures le(r[i], x)
    {
      assert r[i] == s[i];
    }
  }

  /** Puts `x` before the first row it may precede. */
  function InsertBy<T>(x: T, s: seq<T>, le: (T, T) -> bool): (r: seq<T>)
    ensures |r| == |s| + 1
    ensures multiset(r) == multiset(s) + multiset{x}
  {
    if s == [] || le(x, s[0]) then [x] + s
    else
      assert s == [s[0]] + s[1..];
      [s[0]] + InsertBy(x, s[1..], le)
  }

  /** `ORDER BY`: the rows rearranged by `le`; rows that tie keep their table order. */
  function SortBy<T>(s: seq<T>, le: (T, T) -> bool): (r: seq<T>)
    ensures |r| == |s|
    ensures multiset(r) == multiset(s)
  {
    if s == [] then []
    else
      assert s == [s[0]] + s[1..];
      InsertBy(s[0], SortBy(s[1..], le), le)
  }

  lemma {:induction false} InsertBySorted<T(!new)>(x: T, s: seq<T>, le: (T, T) -> bool)
    requires TotalPreorder(le) && SortedBy(s, le)
    ensures SortedBy(InsertBy(x, s, le), le)
  {
    if s != [] && !le(x, s[0]) {
      var rest := InsertBy(x, s[1..], le);
      InsertBySorted(x, s[1..], le);
      var r := InsertBy(x, s, le);
      assert r == [s[0]] + rest;
      forall j | 0 < j < |r|
        ensures le(s[0], r[j])
      {
        assert rest[j - 1] in multiset(rest);
        if rest[j - 1] != x {
          var k :| 0 <= k < |s[1..]| && s[1..][k] == rest[j - 1];
          assert s[k + 1] == rest[j - 1];
        }
      }
    }
  }

  lemma {:induction false} SortBySorted<T(!new)>(s: seq<T>, le: (T, T) -> bool)
    requires TotalPreorder(le)
    ensures SortedBy(SortBy(s, le), le)
  {
    if s != [] {
      SortBySorted(s[1..], le);
      InsertBySorted(s[0], SortBy(s[1..], le), le);
    }
  }

  /** `WHERE` then `ORDER BY`: rows of the table that satisfy `keep`, in order. */
  lemma SortedSelection<T(!new)>(s: seq<T>, keep: T -> bool, le: (T, T) -> bool)
    requires TotalPreorder(le)
    ensures var r := SortBy(Filter(s, keep), le);
      SortedBy(r, le) && forall i :: 0 <= i < |r| ==> r[i] in s && keep(r[i])
  {
    var r := SortBy(Filter(s, keep), le);
    SortBySorted(Filter(s, keep), le);
    FilterMembers(s, keep);
    forall i | 0 <= i < |r|
      ensures r[i] in s && keep(r[i])
    {
      assert r[i] in multiset(r);
      assert r[i] in Filter(s, keep);
    }
  }

  /** Ordering the selected rows keeps exactly the rows of the table that satisfy `keep`. */
  lemma SelectionMembers<T(!new)>(s: seq<T>, keep: T -> bool, le: (T, T) -> bool)
    ensures forall x :: x in SortBy(Filter(s, keep), le) <==> x in s && keep(x)
  {
    var r := SortBy(Filter(s, keep), le);
    FilterMembers(s, keep);
    forall x
      ensures x in r <==> x in s && keep(x)
    {
      assert x in r <==> x in multiset(r);
      assert x in Filter(s, keep) <==> x in multiset(Filter(s, keep));
    }
  }

  /** `WHERE`, `ORDER BY`, then `LIMIT` / `OFFSET`: still rows that satisfy `keep`, still in order. */
  lemma SortedSelectionPage<T(!new)>(s: seq<T>, keep: T -> bool, le: (T, T) -> bool, offset: nat, limit: nat)
    requires TotalPreorder(le)
    ensures var r := Page(SortBy(Filter(s, keep), le), offset, limit);
      SortedBy(r, le) && forall i :: 0 <= i < |r| ==> r[i] in s && keep(r[i])
  {
    var all := SortBy(Filter(s, keep), le);
    SortedSelection(s, keep, le);
    var r := Page(all, offset, limit);
    forall i, j | 0 <= i < j < |r|
      ensures le(r[i], r[j])
    {
      assert r[i] == all[offset + i] && r[j] == all[offset + j];
    }
    forall i | 0 <= i < |r|
      ensures r[i] in s && keep(r[i])
    {
      assert r[i] == all[offset + i];
    }
  }
}

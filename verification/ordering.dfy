/** `sort_values(..., ascending=False)` and `head(n)`.

    pandas sorts descending on one or two columns and puts missing values last.
    Its default sort is not stable, so the order of rows whose sort columns tie is
    unspecified; the model sorts with one fixed insertion sort, and every contract
    here speaks only of sortedness and of which rows are present. */
module Ordering {
  import opened Nullable
  import opened Seqs

  /** The sort columns of one row: the primary column, then the tie-breaker.
      A one-column sort leaves `secondary` missing on every row. */
  datatype Rank = Rank(primary: Option<real>, secondary: Option<real>)

  /** `a` may come before `b` in a descending column with missing values last. */
  predicate NoLess(a: Option<real>, b: Option<real>)
  {
    match (a, b)
    case (Some(x), Some(y)) => x >= y
    case (Some(_), None) => true
    case (None, None) => true
    case (None, Some(_)) => false
  }

  /** Lexicographic descending order on the two sort columns. */
  predicate RankGeq(a: Rank, b: Rank)
  {
    (NoLess(a.primary, b.primary) && !NoLess(b.primary, a.primary))
    || (a.primary == b.primary && NoLess(a.secondary, b.secondary))
  }

  /** Any two rows are comparable, so a descending order exists. */
  lemma RankTotal(a: Rank, b: Rank)
    ensures RankGeq(a, b) || RankGeq(b, a)
  {
  }

  lemma RankTransitive(a: Rank, b: Rank, c: Rank)
    requires RankGeq(a, b) && RankGeq(b, c)
    ensures RankGeq(a, c)
  {
  }

  /** Every row ranks at least as high as every row after it. */
  predicate SortedDesc<T>(s: seq<T>, rank: T -> Rank)
  {
    forall i, j :: 0 <= i < j < |s| ==> RankGeq(rank(s[i]), rank(s[j]))
  }

  /** Dropping the first row of a sorted sequence keeps it sorted. */
  lemma SortedTail<T>(s: seq<T>, rank: T -> Rank)
    requires s != [] && SortedDesc(s, rank)
    ensures SortedDesc(s[1..], rank)
  {
    var t := s[1..];
    forall i, j | 0 <= i < j < |t| ensures RankGeq(rank(t[i]), rank(t[j])) {
      assert t[i] == s[i + 1] && t[j] == s[j + 1];
    }
  }

  /** A row ranking at least as high as every row of a sorted sequence can go in front. */
  lemma SortedCons<T>(x: T, s: seq<T>, rank: T -> Rank)
    requires SortedDesc(s, rank)
    requires forall y :: y in s ==> RankGeq(rank(x), rank(y))
    ensures SortedDesc([x] + s, rank)
  {
    var r := [x] + s;
    forall i, j | 0 <= i < j < |r| ensures RankGeq(rank(r[i]), rank(r[j])) {
      assert r[j] == s[j - 1];
      if i > 0 {
        assert r[i] == s[i - 1];
      } else {
        assert s[j - 1] in s;
      }
    }
  }

  /** A row ranking at least as high as the head of a sorted sequence outranks all of it. */
  lemma AboveHead<T>(x: T, s: seq<T>, rank: T -> Rank)
    requires s != [] && SortedDesc(s, rank)
    requires RankGeq(rank(x), rank(s[0]))
    ensures forall y :: y in s ==> RankGeq(rank(x), rank(y))
  {
    forall y | y in s ensures RankGeq(rank(x), rank(y)) {
      var j :| 0 <= j < |s| && s[j] == y;
      if j > 0 {
        RankTransitive(rank(x), rank(s[0]), rank(s[j]));
      }
    }
  }

  /** Insert `x` into a descending sequence, after the rows ranking strictly higher. */
  function Insert<T>(x: T, s: seq<T>, rank: T -> Rank): (r: seq<T>)
    requires SortedDesc(s, rank)
    ensures SortedDesc(r, rank)
    ensures multiset(r) == multiset(s) + multiset{x}
    ensures |r| == |s| + 1
  {
    if s == [] then [x]
    else if RankGeq(rank(x), rank(s[0])) then
      AboveHead(x, s, rank);
      SortedCons(x, s, rank);
      [x] + s
    else
      var t := s[1..];
      SortedTail(s, rank);
      var rest := Insert(x, t, rank);
      RankTotal(rank(x), rank(s[0]));
      assert s == [s[0]] + t;
      assert forall y :: y in rest ==> RankGeq(rank(s[0]), rank(y)) by {
        AboveHead(s[0], s, rank);
        forall y | y in rest ensures RankGeq(rank(s[0]), rank(y)) {
          assert y in multiset(rest);
          if y != x {
            assert y in multiset(t);
          }
        }
      }
      SortedCons(s[0], rest, rank);
      [s[0]] + rest
  }

  /** A descending sort: the same rows, ordered by `rank`. */
  function SortDesc<T>(s: seq<T>, rank: T -> Rank): (r: seq<T>)
    ensures SortedDesc(r, rank)
    ensures multiset(r) == multiset(s)
    ensures |r| == |s|
  {
    if s == [] then []
    else
      assert s == [s[0]] + s[1..];
      Insert(s[0], SortDesc(s[1..], rank), rank)
  }

  /** A prefix of a sorted sequence is sorted, and outranks the rest. */
  lemma SortedSplit<T>(s: seq<T>, k: nat, rank: T -> Rank)
    requires SortedDesc(s, rank)
    requires k <= |s|
    ensures SortedDesc(s[..k], rank)
    ensures forall x, y :: x in s[..k] && y in s[k..] ==> RankGeq(rank(x), rank(y))
  {
    forall x, y | x in s[..k] && y in s[k..] ensures RankGeq(rank(x), rank(y)) {
      var i :| 0 <= i < k && s[..k][i] == x;
      var j :| 0 <= j < |s| - k && s[k..][j] == y;
      assert s[k..][j] == s[k + j];
    }
  }

  /** A prefix of a sorted permutation of `s` is drawn from `s`, and no row of
      `s` outside the prefix outranks a row in it. */
  lemma PrefixOutranksRest<T>(s: seq<T>, sorted: seq<T>, k: nat, rank: T -> Rank)
    requires multiset(sorted) == multiset(s)
    requires SortedDesc(sorted, rank)
    requires k <= |sorted|
    ensures multiset(sorted[..k]) <= multiset(s)
    ensures forall x, y :: x in sorted[..k] && y in multiset(s) - multiset(sorted[..k]) ==> RankGeq(rank(x), rank(y))
  {
    var front := sorted[..k];
    var back := sorted[k..];
    SortedSplit(sorted, k, rank);
    assert sorted == front + back;
    assert multiset(s) == multiset(front) + multiset(back);
    forall x, y | x in front && y in multiset(s) - multiset(front) ensures RankGeq(rank(x), rank(y)) {
      assert y in multiset(back);
      assert y in back;
    }
  }

  /** `sort_values(...).head(n)`: the `n` highest-ranked rows (all rows when there
      are fewer), sorted, and no row left out outranks a row kept. */
  function TopN<T>(s: seq<T>, n: nat, rank: T -> Rank): (r: seq<T>)
    ensures |r| == Min(n, |s|)
    ensures SortedDesc(r, rank)
    ensures multiset(r) <= multiset(s)
    ensures forall x, y :: x in r && y in multiset(s) - multiset(r) ==> RankGeq(rank(x), rank(y))
  {
    var sorted := SortDesc(s, rank);
    var k := Min(n, |s|);
    SortedSplit(sorted, k, rank);
    PrefixOutranksRest(s, sorted, k, rank);
    sorted[..k]
  }
}

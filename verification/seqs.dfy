/** Sequence helpers shared by the table operations: row filters, column sums,
    counts and distinct counts, with the facts about them the rest of the model uses. */
module Seqs {
  import opened Nullable

  function Min(a: int, b: int): int
  {
    if a <= b then a else b
  }

  /** The rows of `s` that satisfy `p`, in their original order (boolean-mask indexing). */
  function Filter<T>(s: seq<T>, p: T -> bool): (r: seq<T>)
    ensures |r| <= |s|
    ensures forall x :: x in r ==> x in s && p(x)
    ensures forall x :: x in s && p(x) ==> x in r
  {
    if s == [] then []
    else (if p(s[0]) then [s[0]] else []) + Filter(s[1..], p)
  }

  /** The filter keeps every satisfying row as often as it occurs and drops every other row. */
  lemma {:induction false} FilterCount<T>(s: seq<T>, p: T -> bool, x: T)
    ensures multiset(Filter(s, p))[x] == if p(x) then multiset(s)[x] else 0
  {
    if s != [] {
      assert s == [s[0]] + s[1..];
      FilterCount(s[1..], p, x);
    }
  }

  /** A mask that no row satisfies leaves nothing. */
  lemma {:induction false} FilterNone<T>(s: seq<T>, p: T -> bool)
    requires forall x :: x in s ==> !p(x)
    ensures Filter(s, p) == []
  {
    if s != [] {
      assert s[0] in s;
      FilterNone(s[1..], p);
    }
  }

  /** Filtering distributes over concatenation, so the filter keeps the row order. */
  lemma {:induction false} FilterAppend<T>(a: seq<T>, b: seq<T>, p: T -> bool)
    ensures Filter(a + b, p) == Filter(a, p) + Filter(b, p)
  {
    if a == [] {
      assert a + b == b;
    } else {
      assert (a + b)[1..] == a[1..] + b;
      FilterAppend(a[1..], b, p);
    }
  }

  /** Filtering twice with the same mask changes nothing. */
  lemma {:induction false} FilterIdempotent<T>(s: seq<T>, p: T -> bool)
    ensures Filter(Filter(s, p), p) == Filter(s, p)
  {
    if s != [] {
      var t := Filter(s[1..], p);
      FilterIdempotent(s[1..], p);
      if p(s[0]) {
        var u := [s[0]] + t;
        assert Filter(s, p) == u;
        assert u[0] == s[0] && u[1..] == t;
        assert Filter(u, p) == [s[0]] + Filter(t, p);
      } else {
        assert Filter(s, p) == [] + t == t;
      }
    }
  }

  lemma FilterCons<T>(x: T, t: seq<T>, p: T -> bool)
    ensures Filter([x] + t, p) == (if p(x) then [x] else []) + Filter(t, p)
  {
    assert ([x] + t)[0] == x && ([x] + t)[1..] == t;
  }

  /** Two masks applied one after the other commute. */
  lemma {:induction false} FilterCommutes<T>(s: seq<T>, p: T -> bool, q: T -> bool)
    ensures Filter(Filter(s, p), q) == Filter(Filter(s, q), p)
  {
    if s != [] {
      var x := s[0];
      var t := s[1..];
      assert s == [x] + t;
      FilterCommutes(t, p, q);
      FilterCons(x, t, p);
      FilterCons(x, t, q);
      var fp := Filter(t, p);
      var fq := Filter(t, q);
      if p(x) {
        FilterCons(x, fp, q);
      } else {
        assert Filter(s, p) == fp;
      }
      if q(x) {
        FilterCons(x, fq, p);
      } else {
        assert Filter(s, q) == fq;
      }
    }
  }

  /** Filtering twice is filtering once on the conjunction. */
  lemma {:induction false} FilterConj<T>(s: seq<T>, p: T -> bool, q: T -> bool, pq: T -> bool)
    requires forall x :: x in s ==> (pq(x) <==> p(x) && q(x))
    ensures Filter(Filter(s, p), q) == Filter(s, pq)
  {
    if s != [] {
      var x := s[0];
      var t := s[1..];
      assert s == [x] + t;
      assert forall y :: y in t ==> y in s;
      FilterConj(t, p, q, pq);
      FilterCons(x, t, p);
      FilterCons(x, t, pq);
      if p(x) {
        FilterCons(x, Filter(t, p), q);
      } else {
        assert Filter(s, p) == Filter(t, p);
      }
    }
  }

  /** A filter every element passes keeps the whole sequence. */
  lemma {:induction false} FilterAll<T>(s: seq<T>, p: T -> bool)
    requires forall x :: x in s ==> p(x)
    ensures Filter(s, p) == s
  {
    if s != [] {
      assert s == [s[0]] + s[1..];
      FilterAll(s[1..], p);
      FilterCons(s[0], s[1..], p);
    }
  }

  /** The sum of a real-valued column. */
  function Sum<T>(s: seq<T>, f: T -> real): real
  {
    if s == [] then 0.0 else f(s[0]) + Sum(s[1..], f)
  }

  lemma {:induction false} SumAppend<T>(a: seq<T>, b: seq<T>, f: T -> real)
    ensures Sum(a + b, f) == Sum(a, f) + Sum(b, f)
  {
    if a == [] {
      assert a + b == b;
    } else {
      assert (a + b)[1..] == a[1..] + b;
      SumAppend(a[1..], b, f);
    }
  }

  /** A column whose entries are all non-negative has a non-negative sum. */
  lemma {:induction false} SumNonNegative<T>(s: seq<T>, f: T -> real)
    requires forall x :: x in s ==> f(x) >= 0.0
    ensures Sum(s, f) >= 0.0
  {
    if s != [] {
      assert s[0] in s;
      SumNonNegative(s[1..], f);
    }
  }

  /** A non-negative column sums to 0 exactly when every entry is 0. */
  lemma {:induction false} SumZero<T>(s: seq<T>, f: T -> real)
    requires forall x :: x in s ==> f(x) >= 0.0
    ensures Sum(s, f) == 0.0 <==> forall x :: x in s ==> f(x) == 0.0
  {
    if s != [] {
      assert s[0] in s;
      assert forall x :: x in s[1..] ==> x in s;
      assert forall x :: x in s ==> x == s[0] || x in s[1..];
      SumZero(s[1..], f);
      SumNonNegative(s[1..], f);
    }
  }

  /** Summing a column of ones counts the rows. */
  lemma {:induction false} SumOfOnes<T>(s: seq<T>, f: T -> real)
    requires forall x :: x in s ==> f(x) == 1.0
    ensures Sum(s, f) == |s| as real
  {
    if s != [] {
      assert s[0] in s;
      SumOfOnes(s[1..], f);
    }
  }

  /** A column of zeros sums to 0. */
  lemma {:induction false} SumOfZeros<T>(s: seq<T>, f: T -> real)
    requires forall x :: x in s ==> f(x) == 0.0
    ensures Sum(s, f) == 0.0
  {
    if s != [] {
      assert s[0] in s;
      SumOfZeros(s[1..], f);
    }
  }

  /** Reordering the rows does not change a column sum. */
  lemma {:induction false} SumPermutation<T>(a: seq<T>, b: seq<T>, f: T -> real)
    requires multiset(a) == multiset(b)
    ensures Sum(a, f) == Sum(b, f)
    decreases |a|
  {
    if a == [] {
      assert |b| == |multiset(b)| == 0;
    } else {
      var j := PermutationHead(b, a);
      var rest := b[..j] + b[j+1..];
      SumPermutation(a[1..], rest, f);
      SumRemove(b, j, f);
    }
  }

  /** Dropping the row at position `j` removes its value from the sum. */
  lemma SumRemove<T>(b: seq<T>, j: nat, f: T -> real)
    requires j < |b|
    ensures Sum(b, f) == Sum(b[..j] + b[j+1..], f) + f(b[j])
  {
    assert b == b[..j] + [b[j]] + b[j+1..];
    SumMiddle(b[..j], b[j], b[j+1..], f);
  }

  /** A row between two others adds its own value to their sum. */
  lemma SumMiddle<T>(pre: seq<T>, x: T, post: seq<T>, f: T -> real)
    ensures Sum(pre + [x] + post, f) == Sum(pre + post, f) + f(x)
  {
    SumAppend(pre + [x], post, f);
    SumAppend(pre, [x], f);
    SumAppend(pre, post, f);
    assert Sum([x], f) == f(x) by {
      assert [x][1..] == [];
    }
  }

  /** The number of rows satisfying `p` (the sum of a boolean column). */
  function CountIf<T>(s: seq<T>, p: T -> bool): (n: nat)
    ensures n <= |s|
    ensures n == 0 <==> forall x :: x in s ==> !p(x)
  {
    var kept := Filter(s, p);
    assert |kept| > 0 ==> kept[0] in kept;
    |kept|
  }

  /** Summing a 0/1 column counts the rows where it is 1. */
  lemma {:induction false} SumIndicator<T>(s: seq<T>, p: T -> bool, f: T -> real)
    requires forall x :: x in s ==> f(x) == if p(x) then 1.0 else 0.0
    ensures Sum(s, f) == CountIf(s, p) as real
  {
    if s != [] {
      assert s[0] in s;
      assert forall x :: x in s[1..] ==> x in s;
      SumIndicator(s[1..], p, f);
      assert Filter(s, p) == (if p(s[0]) then [s[0]] else []) + Filter(s[1..], p);
    }
  }

  /** Rows outside `p` whose value is 0 do not change the sum. */
  lemma {:induction false} SumFilterZero<T>(s: seq<T>, p: T -> bool, f: T -> real)
    requires forall x :: x in s && !p(x) ==> f(x) == 0.0
    ensures Sum(s, f) == Sum(Filter(s, p), f)
  {
    if s != [] {
      assert s[0] in s;
      assert forall x :: x in s[1..] ==> x in s;
      SumFilterZero(s[1..], p, f);
      var head := if p(s[0]) then [s[0]] else [];
      assert Filter(s, p) == head + Filter(s[1..], p);
      SumAppend(head, Filter(s[1..], p), f);
      if p(s[0]) {
        assert head[1..] == [];
      }
    }
  }

  /** A column bounded below by `lo` sums to at least `|s|` times `lo`. */
  lemma {:induction false} SumAtLeast<T>(s: seq<T>, f: T -> real, lo: real)
    requires forall x :: x in s ==> lo <= f(x)
    ensures Times(|s|, lo) <= Sum(s, f)
  {
    if s != [] {
      assert s[0] in s;
      assert forall x :: x in s[1..] ==> x in s;
      SumAtLeast(s[1..], f, lo);
    }
  }

  /** A column bounded above by `hi` sums to at most `|s|` times `hi`. */
  lemma {:induction false} SumAtMost<T>(s: seq<T>, f: T -> real, hi: real)
    requires forall x :: x in s ==> f(x) <= hi
    ensures Sum(s, f) <= Times(|s|, hi)
  {
    if s != [] {
      assert s[0] in s;
      assert forall x :: x in s[1..] ==> x in s;
      SumAtMost(s[1..], f, hi);
    }
  }

  /** The set of values a column takes. */
  function Image<T, U(==)>(s: seq<T>, f: T -> U): (r: set<U>)
    ensures r == set x | x in s :: f(x)
    ensures |r| <= |s|
  {
    if s == [] then {}
    else
      var rest := Image(s[1..], f);
      assert forall x :: x in s ==> x == s[0] || x in s[1..];
      {f(s[0])} + rest
  }

  /** A non-empty column holding one value throughout has one distinct value. */
  lemma NUniqueConstant<T, U>(s: seq<T>, f: T -> U, v: U)
    requires s != [] && forall x :: x in s ==> f(x) == v
    ensures NUnique(s, f) == 1
  {
    var r := set x | x in s :: f(x);
    forall y | y in r ensures y == v {
      var x :| x in s && f(x) == y;
    }
    assert f(s[0]) in r;
    assert r == {v};
  }

  /** `nunique`: the number of distinct values a column takes. */
  function NUnique<T, U(==)>(s: seq<T>, f: T -> U): (n: nat)
    ensures n == |set x | x in s :: f(x)|
    ensures n <= |s|
    ensures |s| > 0 ==> n >= 1
  {
    var r := Image(s, f);
    if |s| > 0 then
      assert f(s[0]) in r;
      |r|
    else
      |r|
  }

  /** No value occurs twice. */
  predicate Distinct<T(==)>(s: seq<T>)
  {
    forall i, j :: 0 <= i < j < |s| ==> s[i] != s[j]
  }

  /** No two rows agree on `f`. */
  predicate DistinctBy<T, U(==)>(s: seq<T>, f: T -> U)
  {
    forall i, j :: 0 <= i < j < |s| ==> f(s[i]) != f(s[j])
  }

  /** The rows after the first stay pairwise distinct. */
  lemma DistinctByTail<T, U>(s: seq<T>, f: T -> U)
    requires s != []
    requires DistinctBy(s, f)
    ensures DistinctBy(s[1..], f)
  {
    var t := s[1..];
    forall i, j | 0 <= i < j < |t| ensures f(t[i]) != f(t[j]) {
      assert t[i] == s[i + 1] && t[j] == s[j + 1];
    }
  }

  /** Two positions with the same value are the same position. */
  lemma DistinctByIndex<T, U>(s: seq<T>, f: T -> U, p: nat, q: nat)
    requires DistinctBy(s, f)
    requires p < |s| && q < |s| && f(s[p]) == f(s[q])
    ensures p == q
  {
  }

  /** When no two rows share a value, `nunique` is the row count. */
  lemma {:induction false} NUniqueOfDistinct<T, U>(s: seq<T>, f: T -> U)
    requires DistinctBy(s, f)
    ensures NUnique(s, f) == |s|
  {
    if s != [] {
      var t := s[1..];
      assert DistinctBy(t, f) by {
        forall i, j | 0 <= i < j < |t| ensures f(t[i]) != f(t[j]) {
          assert t[i] == s[i + 1] && t[j] == s[j + 1];
        }
      }
      NUniqueOfDistinct(t, f);
      assert f(s[0]) !in Image(t, f) by {
        forall x | x in t ensures f(x) != f(s[0]) {
          var k :| 0 <= k < |t| && t[k] == x;
          assert s[k + 1] == x;
        }
      }
    }
  }

  /** Keeping a subset of the rows keeps them pairwise distinct. */
  lemma {:induction false} FilterKeepsDistinct<T, U>(s: seq<T>, p: T -> bool, f: T -> U)
    requires DistinctBy(s, f)
    ensures DistinctBy(Filter(s, p), f)
  {
    if s != [] {
      var t := s[1..];
      assert DistinctBy(t, f) by {
        forall i, j | 0 <= i < j < |t| ensures f(t[i]) != f(t[j]) {
          assert t[i] == s[i + 1] && t[j] == s[j + 1];
        }
      }
      FilterKeepsDistinct(t, p, f);
      var ft := Filter(t, p);
      if p(s[0]) {
        var r := [s[0]] + ft;
        forall i, j | 0 <= i < j < |r| ensures f(r[i]) != f(r[j]) {
          if i == 0 {
            assert r[j] in t;
            var k :| 0 <= k < |t| && t[k] == r[j];
            assert s[k + 1] == r[j];
          } else {
            assert r[i] == ft[i - 1] && r[j] == ft[j - 1];
          }
        }
      }
    }
  }

  /** Dropping the row at position `p` removes one occurrence of it from the multiset. */
  lemma RemoveOne<T>(a: seq<T>, p: nat)
    requires p < |a|
    ensures multiset(a[..p] + a[p+1..]) == multiset(a) - multiset{a[p]}
  {
    assert a == a[..p] + [a[p]] + a[p+1..];
    assert multiset(a) == multiset(a[..p]) + multiset{a[p]} + multiset(a[p+1..]);
  }

  /** Dropping one row keeps the rest pairwise distinct, and none of them shares
      the dropped row's value. */
  lemma DistinctByRemove<T, U>(a: seq<T>, p: nat, f: T -> U)
    requires p < |a|
    requires DistinctBy(a, f)
    ensures DistinctBy(a[..p] + a[p+1..], f)
    ensures forall x :: x in a[..p] + a[p+1..] ==> f(x) != f(a[p])
  {
    var r := a[..p] + a[p+1..];
    assert forall m :: 0 <= m < |r| ==> r[m] == if m < p then a[m] else a[m + 1];
    forall x | x in r ensures f(x) != f(a[p]) {
      var m :| 0 <= m < |r| && r[m] == x;
      if m < p {
        assert f(a[m]) != f(a[p]);
      } else {
        assert f(a[p]) != f(a[m + 1]);
      }
    }
  }

  /** A row in front of pairwise-distinct rows, sharing no value with them, keeps them distinct. */
  lemma DistinctByCons<T, U>(x: T, t: seq<T>, f: T -> U)
    requires DistinctBy(t, f)
    requires forall y :: y in t ==> f(y) != f(x)
    ensures DistinctBy([x] + t, f)
  {
    var s := [x] + t;
    forall i, j | 0 <= i < j < |s| ensures f(s[i]) != f(s[j]) {
      assert s[j] == t[j - 1];
      if i > 0 {
        assert s[i] == t[i - 1];
      } else {
        assert t[j - 1] in t;
      }
    }
  }

  /** The first row of a permutation of `a` sits somewhere in `a`, and the rest
      of each are permutations of one another. */
  lemma PermutationHead<T>(a: seq<T>, b: seq<T>) returns (p: nat)
    requires multiset(a) == multiset(b)
    requires b != []
    ensures p < |a| && a[p] == b[0]
    ensures multiset(a[..p] + a[p+1..]) == multiset(b[1..])
  {
    p := IndexOf(a, b[0]);
    RemoveOne(a, p);
    assert b == [b[0]] + b[1..];
    assert multiset(b) == multiset{b[0]} + multiset(b[1..]);
  }

  /** A position of `x` in `a`. */
  lemma IndexOf<T>(a: seq<T>, x: T) returns (p: nat)
    requires x in multiset(a)
    ensures p < |a| && a[p] == x
  {
    p :| 0 <= p < |a| && a[p] == x;
  }

  /** Reordering the rows keeps them pairwise distinct. */
  lemma {:induction false} DistinctByPermutation<T, U>(a: seq<T>, b: seq<T>, f: T -> U)
    requires multiset(a) == multiset(b)
    requires DistinctBy(a, f)
    ensures DistinctBy(b, f)
    decreases |b|
  {
    if b != [] {
      var p := PermutationHead(a, b);
      var rest := a[..p] + a[p+1..];
      DistinctByRemove(a, p, f);
      DistinctByPermutation(rest, b[1..], f);
      forall y | y in b[1..] ensures f(y) != f(b[0]) {
        assert y in multiset(rest);
      }
      DistinctByCons(b[0], b[1..], f);
      assert b == [b[0]] + b[1..];
    }
  }
}

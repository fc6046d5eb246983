/** `groupby(keys).agg(...)` as an explicit grouping step.

    A row belongs to the group of its key. With pandas' default `dropna=True`, a
    row whose key has a missing part belongs to no group at all, so a key function
    here returns `None` for such a row. Each group is summarised into one output
    row; the output order of groups is immaterial because every caller re-sorts. */
module Grouping {
  import opened Nullable
  import opened Seqs

  /** The rows that belong to some group. */
  function Keyed<T, K>(rs: seq<T>, key: T -> Option<K>): seq<T>
  {
    Filter(rs, r => key(r).Some?)
  }

  /** The rows of the group with key `k`, in input order. */
  function Members<T, K(==)>(rs: seq<T>, key: T -> Option<K>, k: K): seq<T>
  {
    Filter(rs, r => key(r) == Some(k))
  }

  /** The keys of the groups: each defined key exactly once. */
  function GroupKeys<T, K(==)>(rs: seq<T>, key: T -> Option<K>): (ks: seq<K>)
    ensures Distinct(ks)
    ensures forall k :: k in ks ==> exists r :: r in rs && key(r) == Some(k)
    ensures forall r :: r in rs && key(r).Some? ==> key(r).value in ks
  {
    if rs == [] then []
    else
      var ks := GroupKeys(rs[1..], key);
      assert forall r :: r in rs ==> r == rs[0] || r in rs[1..];
      match key(rs[0])
      case None => ks
      case Some(k) => if k in ks then ks else [k] + ks
  }

  /** Every group has at least one row. */
  lemma MembersNonEmpty<T, K>(rs: seq<T>, key: T -> Option<K>, k: K)
    requires k in GroupKeys(rs, key)
    ensures |Members(rs, key, k)| > 0
  {
    var r :| r in rs && key(r) == Some(k);
    assert r in Members(rs, key, k);
  }

  /** A row carrying the key of a group. */
  lemma KeyWitness<T, K>(rs: seq<T>, key: T -> Option<K>, k: K) returns (r: T)
    requires k in GroupKeys(rs, key)
    ensures r in rs && key(r) == Some(k)
  {
    r :| r in rs && key(r) == Some(k);
  }

  /** A row of any reordering of a rollup whose summaries carry their key comes
      from a row with that key. */
  lemma SummaryWitness<T, K, R>(rs: seq<T>, key: T -> Option<K>, summarize: (K, seq<T>) -> R,
                                out: seq<R>, g: R, keyOf: R -> K) returns (r: T)
    requires multiset(out) == multiset(Rollup(rs, key, summarize))
    requires g in out
    requires forall k, m :: keyOf(summarize(k, m)) == k
    ensures r in rs && key(r) == Some(keyOf(g))
  {
    var k := GroupOf(rs, key, summarize, out, g);
    r := KeyWitness(rs, key, k);
  }

  /** The members of a group are rows of the input carrying the group's key, and
      a property that separates the input rows separates the members. */
  lemma MembersOfKey<T, K, U>(rs: seq<T>, key: T -> Option<K>, k: K, f: T -> U)
    ensures forall x :: x in Members(rs, key, k) ==> x in rs && key(x) == Some(k)
    ensures DistinctBy(rs, f) ==> DistinctBy(Members(rs, key, k), f)
  {
    if DistinctBy(rs, f) {
      FilterKeepsDistinct(rs, r => key(r) == Some(k), f);
    }
  }

  /** One summary row per group key in `ks`. */
  function Summaries<T, K(==), R>(ks: seq<K>, rs: seq<T>, key: T -> Option<K>, summarize: (K, seq<T>) -> R): (out: seq<R>)
    ensures |out| == |ks|
    ensures forall i :: 0 <= i < |ks| ==> out[i] == summarize(ks[i], Members(rs, key, ks[i]))
  {
    if ks == [] then []
    else [summarize(ks[0], Members(rs, key, ks[0]))] + Summaries(ks[1..], rs, key, summarize)
  }

  /** `groupby(key).agg(summarize)`: one summary row per group. */
  function Rollup<T, K(==), R>(rs: seq<T>, key: T -> Option<K>, summarize: (K, seq<T>) -> R): seq<R>
  {
    Summaries(GroupKeys(rs, key), rs, key, summarize)
  }

  /** The summary rows of a rollup are exactly the summaries of the groups:
      one per defined key, none for a key that no row carries. */
  lemma RollupGroups<T, K, R>(rs: seq<T>, key: T -> Option<K>, summarize: (K, seq<T>) -> R)
    ensures forall g :: g in Rollup(rs, key, summarize) ==>
      exists k :: k in GroupKeys(rs, key) && g == summarize(k, Members(rs, key, k))
    ensures forall r :: r in rs && key(r).Some? ==>
      summarize(key(r).value, Members(rs, key, key(r).value)) in Rollup(rs, key, summarize)
  {
    var ks := GroupKeys(rs, key);
    var out := Rollup(rs, key, summarize);
    forall g | g in out
      ensures exists k :: k in ks && g == summarize(k, Members(rs, key, k))
    {
      var i :| 0 <= i < |out| && out[i] == g;
      assert ks[i] in ks;
    }
    forall r | r in rs && key(r).Some?
      ensures summarize(key(r).value, Members(rs, key, key(r).value)) in out
    {
      var i :| 0 <= i < |ks| && ks[i] == key(r).value;
      assert out[i] == summarize(ks[i], Members(rs, key, ks[i]));
    }
  }

  /** A row of any reordering of a rollup is the summary of one non-empty group. */
  lemma GroupOf<T, K, R>(rs: seq<T>, key: T -> Option<K>, summarize: (K, seq<T>) -> R, out: seq<R>, g: R)
    returns (k: K)
    requires multiset(out) == multiset(Rollup(rs, key, summarize))
    requires g in out
    ensures k in GroupKeys(rs, key)
    ensures |Members(rs, key, k)| > 0
    ensures g == summarize(k, Members(rs, key, k))
  {
    var ks := GroupKeys(rs, key);
    var all := Rollup(rs, key, summarize);
    assert g in multiset(all);
    var i :| 0 <= i < |all| && all[i] == g;
    k := ks[i];
    MembersNonEmpty(rs, key, k);
  }

  /** The total of `w` over the groups with keys `ks`. */
  function GroupSum<T, K(==)>(ks: seq<K>, rs: seq<T>, key: T -> Option<K>, w: T -> real): real
  {
    if ks == [] then 0.0 else Sum(Members(rs, key, ks[0]), w) + GroupSum(ks[1..], rs, key, w)
  }

  /** Adding a row in front adds its weight to its own group only. */
  lemma {:induction false} GroupSumCons<T, K>(ks: seq<K>, x: T, t: seq<T>, key: T -> Option<K>, w: T -> real)
    requires Distinct(ks)
    ensures GroupSum(ks, [x] + t, key, w)
         == GroupSum(ks, t, key, w) + (if key(x).Some? && key(x).value in ks then w(x) else 0.0)
  {
    if ks != [] {
      var k := ks[0];
      var tail := ks[1..];
      assert Distinct(tail) by {
        forall i, j | 0 <= i < j < |tail| ensures tail[i] != tail[j] {
          assert tail[i] == ks[i + 1] && tail[j] == ks[j + 1];
        }
      }
      GroupSumCons(tail, x, t, key, w);
      FilterCons(x, t, r => key(r) == Some(k));
      var m := Members(t, key, k);
      SumAppend(if key(x) == Some(k) then [x] else [], m, w);
      assert Sum([x], w) == w(x) by {
        assert [x][1..] == [];
      }
      assert k !in tail by {
        forall i | 0 <= i < |tail| ensures tail[i] != k {
          assert tail[i] == ks[i + 1];
        }
      }
      assert forall v :: v in ks <==> v == k || v in tail by {
        assert ks == [k] + tail;
      }
    }
  }

  /** A row in front adds its weight to the keyed total exactly when its key is defined. */
  lemma KeyedCons<T, K>(x: T, t: seq<T>, key: T -> Option<K>, w: T -> real)
    ensures Sum(Keyed([x] + t, key), w) == Sum(Keyed(t, key), w) + (if key(x).Some? then w(x) else 0.0)
  {
    FilterCons(x, t, r => key(r).Some?);
    SumAppend(if key(x).Some? then [x] else [], Keyed(t, key), w);
    assert Sum([x], w) == w(x) by {
      assert [x][1..] == [];
    }
  }

  /** A row whose key no later row carries opens a group of its own, holding just that row. */
  lemma NewGroup<T, K>(x: T, t: seq<T>, key: T -> Option<K>, w: T -> real)
    requires key(x).Some?
    requires forall r :: r in t ==> key(r) != key(x)
    ensures Sum(Members([x] + t, key, key(x).value), w) == w(x)
  {
    var k := key(x).value;
    FilterCons(x, t, r => key(r) == Some(k));
    FilterNone(t, r => key(r) == Some(k));
    assert Members([x] + t, key, k) == [x];
    assert [x][1..] == [];
  }

  /** Grouping neither loses nor double counts: summed over all groups, a column
      totals the same as over the rows whose key is defined. */
  lemma {:induction false} GroupingConserves<T, K>(rs: seq<T>, key: T -> Option<K>, w: T -> real)
    ensures GroupSum(GroupKeys(rs, key), rs, key, w) == Sum(Keyed(rs, key), w)
  {
    if rs != [] {
      var x := rs[0];
      var t := rs[1..];
      assert rs == [x] + t;
      var ks := GroupKeys(t, key);
      GroupingConserves(t, key, w);
      KeyedCons(x, t, key, w);
      GroupSumCons(ks, x, t, key, w);
      if key(x).Some? && key(x).value !in ks {
        var ks' := [key(x).value] + ks;
        assert ks'[1..] == ks;
        NewGroup(x, t, key, w);
      }
    }
  }

  /** The same conservation stated on the rollup itself. */
  lemma RollupConserves<T, K, R>(rs: seq<T>, key: T -> Option<K>, summarize: (K, seq<T>) -> R,
                                 total: R -> real, w: T -> real)
    requires forall k, m :: total(summarize(k, m)) == Sum(m, w)
    ensures Sum(Rollup(rs, key, summarize), total) == Sum(Keyed(rs, key), w)
  {
    SummariesSum(GroupKeys(rs, key), rs, key, summarize, total, w);
    GroupingConserves(rs, key, w);
  }

  lemma {:induction false} SummariesSum<T, K, R>(ks: seq<K>, rs: seq<T>, key: T -> Option<K>,
                                                 summarize: (K, seq<T>) -> R, total: R -> real, w: T -> real)
    requires forall k, m :: total(summarize(k, m)) == Sum(m, w)
    ensures Sum(Summaries(ks, rs, key, summarize), total) == GroupSum(ks, rs, key, w)
  {
    if ks != [] {
      SummariesSum(ks[1..], rs, key, summarize, total, w);
      var out := Summaries(ks, rs, key, summarize);
      assert out[1..] == Summaries(ks[1..], rs, key, summarize);
    }
  }

  /** Restricting the rows before grouping gives each group the restricted members. */
  lemma MembersOfFilter<T, K>(rs: seq<T>, p: T -> bool, key: T -> Option<K>, k: K)
    ensures Members(Filter(rs, p), key, k) == Filter(Members(rs, key, k), p)
  {
    FilterCommutes(rs, p, r => key(r) == Some(k));
  }
}

/**
 The tensor bookkeeping both decoders rely on: selecting the positions where
 a token is (or is not) the end token, gathering rows by an index list, and
 sorting (index, sequence) pairs by index.
 */
module Compaction {

  /** Positions strictly increase: relative order is kept. */
  predicate Increasing(s: seq<nat>)
  {
    forall a, b :: 0 <= a < b < |s| ==> s[a] < s[b]
  }

  /**
   `(ws == tok).nonzero()` when eq holds, `(ws != tok).nonzero()` otherwise:
   the positions of ws, in increasing order, whose comparison with tok is eq.
   */
  function Where<T(==)>(ws: seq<T>, tok: T, eq: bool): (r: seq<nat>)
    ensures Increasing(r)
    ensures forall a :: 0 <= a < |r| ==> r[a] < |ws|
    ensures forall i: nat :: i < |ws| ==> (i in r <==> (ws[i] == tok) == eq)
    decreases |ws|
  {
    if |ws| == 0 then []
    else
      var r := Where(ws[..|ws| - 1], tok, eq);
      if (ws[|ws| - 1] == tok) == eq then r + [|ws| - 1] else r
  }

  /** The two selections split the positions between them. */
  lemma {:induction false} WhereSplits<T>(ws: seq<T>, tok: T)
    ensures |Where(ws, tok, true)| + |Where(ws, tok, false)| == |ws|
    decreases |ws|
  {
    if |ws| > 0 {
      WhereSplits(ws[..|ws| - 1], tok);
    }
  }

  /** `s[idx]` for an index tensor idx. */
  function Gather<T>(s: seq<T>, idx: seq<nat>): (r: seq<T>)
    requires forall a :: 0 <= a < |idx| ==> idx[a] < |s|
    ensures |r| == |idx| && forall a :: 0 <= a < |idx| ==> r[a] == s[idx[a]]
  {
    seq(|idx|, a requires 0 <= a < |idx| => s[idx[a]])
  }

  /** `list(zip(xs, ys))`. */
  function Zip<A, B>(xs: seq<A>, ys: seq<B>): (r: seq<(A, B)>)
    requires |xs| == |ys|
    ensures |r| == |xs| && forall a :: 0 <= a < |xs| ==> r[a] == (xs[a], ys[a])
  {
    seq(|xs|, a requires 0 <= a < |xs| => (xs[a], ys[a]))
  }

  /** Gathering an increasing sequence at increasing positions keeps it increasing. */
  lemma GatherIncreasing(s: seq<nat>, idx: seq<nat>)
    requires forall a :: 0 <= a < |idx| ==> idx[a] < |s|
    requires Increasing(s) && Increasing(idx)
    ensures Increasing(Gather(s, idx))
  {
  }

  /** Inserts a pair before the first pair whose key is not smaller. */
  function InsertByKey<V>(x: (nat, V), s: seq<(nat, V)>): (r: seq<(nat, V)>)
  {
    if s == [] || x.0 <= s[0].0 then [x] + s
    else [s[0]] + InsertByKey(x, s[1..])
  }

  predicate SortedByKey<V>(s: seq<(nat, V)>)
  {
    forall a, b :: 0 <= a < b < |s| ==> s[a].0 <= s[b].0
  }

  predicate StrictlySortedByKey<V>(s: seq<(nat, V)>)
  {
    forall a, b :: 0 <= a < b < |s| ==> s[a].0 < s[b].0
  }

  lemma {:induction false} InsertByKeyPermutes<V>(x: (nat, V), s: seq<(nat, V)>)
    ensures |InsertByKey(x, s)| == |s| + 1
    ensures multiset(InsertByKey(x, s)) == multiset(s) + multiset{x}
    decreases |s|
  {
    if s != [] && x.0 > s[0].0 {
      assert s == [s[0]] + s[1..];
      InsertByKeyPermutes(x, s[1..]);
    }
  }

  lemma {:induction false} InsertByKeySorted<V>(x: (nat, V), s: seq<(nat, V)>)
    requires SortedByKey(s)
    ensures SortedByKey(InsertByKey(x, s))
    decreases |s|
  {
    if s != [] && x.0 > s[0].0 {
      var t := s[1..];
      InsertByKeySorted(x, t);
      InsertByKeyPermutes(x, t);
      var r := InsertByKey(x, t);
      forall b | 0 <= b < |r|
        ensures s[0].0 <= r[b].0
      {
        assert r[b] in multiset(t) + multiset{x};
      }
    }
  }

  lemma {:induction false} InsertByKeyStrict<V>(x: (nat, V), s: seq<(nat, V)>)
    requires StrictlySortedByKey(s)
    requires forall b :: 0 <= b < |s| ==> s[b].0 != x.0
    ensures StrictlySortedByKey(InsertByKey(x, s))
    decreases |s|
  {
    if s != [] && x.0 > s[0].0 {
      var t := s[1..];
      InsertByKeyStrict(x, t);
      InsertByKeyPermutes(x, t);
      var r := InsertByKey(x, t);
      forall b | 0 <= b < |r|
        ensures s[0].0 < r[b].0
      {
        assert r[b] in multiset(t) + multiset{x};
      }
    }
  }

  /**
   `sorted(ps, key=lambda x: x[0])`: a permutation of ps, ordered by key;
   Python's sort is stable, and inserting each pair before the pairs with a
   key not smaller keeps equal keys in their original order.
   */
  function SortByKey<V(==)>(ps: seq<(nat, V)>): (r: seq<(nat, V)>)
    ensures |r| == |ps| && SortedByKey(r)
    ensures multiset(r) == multiset(ps)
    decreases |ps|
  {
    if ps == [] then []
    else
      var s := SortByKey(ps[1..]);
      InsertFirst(ps, s);
      InsertByKey(ps[0], s)
  }

  /** Inserting the first pair into a sorted permutation of the rest sorts the whole. */
  lemma InsertFirst<V>(ps: seq<(nat, V)>, s: seq<(nat, V)>)
    requires ps != [] && SortedByKey(s) && multiset(s) == multiset(ps[1..])
    ensures |InsertByKey(ps[0], s)| == |ps| && SortedByKey(InsertByKey(ps[0], s))
    ensures multiset(InsertByKey(ps[0], s)) == multiset(ps)
  {
    InsertByKeySorted(ps[0], s);
    InsertByKeyPermutes(ps[0], s);
    assert ps == [ps[0]] + ps[1..];
    assert |s| == |ps[1..]| by {
      assert |multiset(s)| == |multiset(ps[1..])|;
    }
  }

  /** No two pairs share a key. */
  predicate DistinctKeys<V>(ps: seq<(nat, V)>)
  {
    forall a, b :: 0 <= a < b < |ps| ==> ps[a].0 != ps[b].0
  }

  /** With distinct keys, sorting by key orders them strictly. */
  lemma {:induction false} SortDistinctStrict<V>(ps: seq<(nat, V)>)
    requires DistinctKeys(ps)
    ensures StrictlySortedByKey(SortByKey(ps))
    decreases |ps|
  {
    if ps != [] {
      var t := ps[1..];
      assert DistinctKeys(t);
      SortDistinctStrict(t);
      var s := SortByKey(t);
      forall c | 0 <= c < |s|
        ensures s[c].0 != ps[0].0
      {
        assert s[c] in multiset(t);
        var b :| 0 <= b < |t| && t[b] == s[c];
        assert ps[b + 1] == s[c];
      }
      InsertByKeyStrict(ps[0], s);
    }
  }

  /** n strictly increasing keys below n are exactly 0, 1, ..., n-1. */
  lemma KeysAreIdentity<V>(s: seq<(nat, V)>, n: nat)
    requires |s| == n && StrictlySortedByKey(s)
    requires forall a :: 0 <= a < |s| ==> s[a].0 < n
    ensures forall a :: 0 <= a < |s| ==> s[a].0 == a
  {
    forall a | 0 <= a < |s|
      ensures s[a].0 == a
    {
      KeyAtLeast(s, a);
      KeyAtMost(s, n, a);
    }
  }

  lemma {:induction false} KeyAtLeast<V>(s: seq<(nat, V)>, a: nat)
    requires a < |s| && StrictlySortedByKey(s)
    ensures s[a].0 >= a
  {
    if a > 0 {
      KeyAtLeast(s, a - 1);
    }
  }

  lemma {:induction false} KeyAtMost<V>(s: seq<(nat, V)>, n: nat, a: nat)
    requires a < |s| && StrictlySortedByKey(s)
    requires forall b :: 0 <= b < |s| ==> s[b].0 < n
    ensures s[a].0 + |s| - a <= n
    decreases |s| - a
  {
    if a < |s| - 1 {
      KeyAtMost(s, n, a + 1);
    }
  }
}

/**
 A deterministic top-k: the indices of the k best entries of a row, best
 first.  `torch.topk` leaves the order among equal values unspecified; this
 model fixes it as a stable descending sort (equal values keep index order).
 */
module Selection {
  import opened Scores

  /** Index i ranks ahead of index j: it scores higher, or the same and comes first. */
  predicate Before(xs: seq<Score>, i: nat, j: nat)
    requires i < |xs| && j < |xs|
  {
    Lt(xs[j], xs[i]) || (xs[i] == xs[j] && i < j)
  }

  /** s lists indices of xs in strictly descending rank (so without repetition). */
  predicate Ranked(xs: seq<Score>, s: seq<nat>)
  {
    && (forall a :: 0 <= a < |s| ==> s[a] < |xs|)
    && (forall a, b :: 0 <= a < b < |s| ==> Before(xs, s[a], s[b]))
  }

  /** Puts index i into a ranked list at its place. */
  function Insert(xs: seq<Score>, i: nat, s: seq<nat>): (r: seq<nat>)
    requires i < |xs|
    requires forall a :: 0 <= a < |s| ==> s[a] < |xs|
  {
    if s == [] then [i]
    else if Before(xs, i, s[0]) then [i] + s
    else [s[0]] + Insert(xs, i, s[1..])
  }

  lemma BeforeTransitive(xs: seq<Score>, i: nat, j: nat, m: nat)
    requires i < |xs| && j < |xs| && m < |xs|
    requires Before(xs, i, j) && Before(xs, j, m)
    ensures Before(xs, i, m)
  {
  }

  lemma BeforeTotal(xs: seq<Score>, i: nat, j: nat)
    requires i < |xs| && j < |xs| && i != j
    ensures Before(xs, i, j) || Before(xs, j, i)
  {
  }

  lemma {:induction false} InsertRanked(xs: seq<Score>, i: nat, s: seq<nat>)
    requires i < |xs| && Ranked(xs, s) && i !in s
    ensures Ranked(xs, Insert(xs, i, s))
    ensures multiset(Insert(xs, i, s)) == multiset(s) + multiset{i}
  {
    if s == [] {
    } else if Before(xs, i, s[0]) {
      forall b | 0 <= b < |s|
        ensures Before(xs, i, s[b])
      {
        if b > 0 { BeforeTransitive(xs, i, s[0], s[b]); }
      }
    } else {
      var t := s[1..];
      assert s == [s[0]] + t;
      assert Ranked(xs, t);
      InsertRanked(xs, i, t);
      var r := Insert(xs, i, t);
      BeforeTotal(xs, i, s[0]);
      forall b | 0 <= b < |r|
        ensures Before(xs, s[0], r[b])
      {
        assert r[b] in multiset(t) + multiset{i};
        if r[b] != i {
          assert r[b] in t;
        }
      }
    }
  }

  lemma RankingStep(xs: seq<Score>, i: nat, s: seq<nat>)
    requires i < |xs|
    requires |s| == i && Ranked(xs, s)
    requires forall j: nat :: j in s <==> j < i
    ensures |Insert(xs, i, s)| == i + 1 && Ranked(xs, Insert(xs, i, s))
    ensures forall j: nat :: j in Insert(xs, i, s) <==> j <= i
  {
    InsertRanked(xs, i, s);
    var r := Insert(xs, i, s);
    assert |r| == |multiset(r)|;
    forall j: nat
      ensures j in r <==> j <= i
    {
      assert j in r <==> j in multiset(r);
      assert j in s <==> j in multiset(s);
    }
  }

  /** The indices 0 .. n-1 of xs, in descending rank. */
  function Ranking(xs: seq<Score>, n: nat): (r: seq<nat>)
    requires n <= |xs|
    ensures |r| == n && Ranked(xs, r)
    ensures forall j: nat :: j in r <==> j < n
    decreases n
  {
    if n == 0 then []
    else
      var s := Ranking(xs, n - 1);
      RankingStep(xs, n - 1, s);
      Insert(xs, n - 1, s)
  }

  /**
   `torch.topk(xs, k)` (the index part): k distinct indices in descending
   rank, and no index left out scores above any index taken.
   */
  function TopK(xs: seq<Score>, k: nat): (r: seq<nat>)
    requires k <= |xs|
    ensures |r| == k && Ranked(xs, r)
    ensures forall a, b :: 0 <= a < b < k ==> Le(xs[r[b]], xs[r[a]])
    ensures forall j: nat, a :: j < |xs| && j !in r && 0 <= a < k ==> Le(xs[j], xs[r[a]])
  {
    var full := Ranking(xs, |xs|);
    forall j: nat, a | j < |xs| && j !in full[..k] && 0 <= a < k
      ensures Le(xs[j], xs[full[..k][a]])
    {
      assert j in full;
      var b :| 0 <= b < |full| && full[b] == j;
    }
    full[..k]
  }

  /** The best single entry is the first maximal one, as `torch.argmax` picks it. */
  lemma TopOneIsFirstMax(xs: seq<Score>)
    requires |xs| > 0
    ensures TopK(xs, 1) == [FirstMax(xs)]
  {
    var f := FirstMax(xs);
    var full := Ranking(xs, |xs|);
    assert f in full;
    var b :| 0 <= b < |full| && full[b] == f;
  }

  /** No index is listed twice. */
  predicate Distinct(s: seq<nat>)
  {
    forall a, b :: 0 <= a < b < |s| ==> s[a] != s[b]
  }

  lemma RankedDistinct(xs: seq<Score>, s: seq<nat>)
    requires Ranked(xs, s)
    ensures Distinct(s)
  {
  }

  /** A position at which x occurs in s. */
  function IndexOf(s: seq<nat>, x: nat): (i: nat)
    requires x in s
    ensures i < |s| && s[i] == x
  {
    if s[0] == x then 0 else 1 + IndexOf(s[1..], x)
  }

  /** At most n distinct values lie below n. */
  lemma {:induction false} Pigeonhole(s: seq<nat>, n: nat)
    requires Distinct(s)
    requires forall a :: 0 <= a < |s| ==> s[a] < n
    ensures |s| <= n
    decreases n
  {
    if |s| > 0 {
      // Drop the last value w and rename the value n - 1, if it occurs among the rest, to w.
      var w := s[|s| - 1];
      var t := seq(|s| - 1, a requires 0 <= a < |s| - 1 => if s[a] == n - 1 then w else s[a]);
      forall a | 0 <= a < |t|
        ensures t[a] < n - 1
      {
        if s[a] == n - 1 {
          assert s[a] != w;
        }
      }
      Pigeonhole(t, n - 1);
    }
  }

  /** When exactly the first k entries are finite, the k best are those k. */
  lemma TopKOfFiniteHead(xs: seq<Score>, k: nat)
    requires k <= |xs|
    requires forall q :: 0 <= q < |xs| ==> (xs[q].Fin? <==> q < k)
    ensures forall a :: 0 <= a < k ==> TopK(xs, k)[a] < k
  {
    var r := TopK(xs, k);
    RankedDistinct(xs, r);
    // Every finite entry is taken ...
    forall j | 0 <= j < k
      ensures j in r
    {
      if j !in r {
        Pigeonhole(r + [j], k);
        assert false;
      }
    }
    // ... and they fill all k places.
    forall a | 0 <= a < k
      ensures r[a] < k
    {
      if r[a] >= k {
        var pos := seq(k, j requires 0 <= j < k => IndexOf(r, j));
        Pigeonhole(pos + [a], k);
        assert false;
      }
    }
  }
}

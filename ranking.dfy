/**
 * The rank column of topsis (topsis.py:93): score.argsort()[::-1].argsort() + 1
 * gives rank 1 to the highest score, rank 2 to the next, and so on. numpy's
 * default argsort is not stable, so the order among equal scores is left
 * open here.
 */
module Ranking {
  import opened Seqs

  /** No value occurs twice. */
  predicate Injective(r: seq<nat>) {
    forall i, k :: 0 <= i < |r| && 0 <= k < |r| && i != k ==> r[i] != r[k]
  }

  /**
   * rank is a ranking of scores: one rank in 1..|scores| per alternative,
   * no rank used twice, and a strictly higher score always getting a
   * strictly better (smaller) rank.
   */
  predicate IsRanking(scores: seq<real>, rank: seq<nat>) {
    && |rank| == |scores|
    && (forall i :: 0 <= i < |rank| ==> 1 <= rank[i] <= |rank|)
    && Injective(rank)
    && (forall i, k :: 0 <= i < |scores| && 0 <= k < |scores| && scores[i] > scores[k] ==> rank[i] < rank[k])
  }

  /** order lists every alternative once, from the highest score down. */
  predicate IsDescendingOrder(scores: seq<real>, order: seq<nat>) {
    && |order| == |scores|
    && (forall p :: 0 <= p < |order| ==> order[p] < |scores|)
    && Injective(order)
    && (forall p, q :: 0 <= p < q < |order| ==> scores[order[p]] >= scores[order[q]])
  }

  /** An injective sequence of values in 1..m has at most m elements. */
  lemma {:induction false} Pigeonhole(r: seq<nat>, m: nat)
    requires forall i :: 0 <= i < |r| ==> 1 <= r[i] <= m
    requires Injective(r)
    ensures |r| <= m
    decreases |r|
  {
    if |r| > 0 {
      var last := |r| - 1;
      var v := r[last];
      // Drop the last element; whichever element holds m takes over v.
      var r' := seq(last, i requires 0 <= i < last => if r[i] == m then v else r[i]);
      assert forall i :: 0 <= i < last ==> 1 <= r'[i] <= m - 1 by {
        forall i | 0 <= i < last
          ensures 1 <= r'[i] <= m - 1
        {
          if r[i] == m {
            assert v != m;
          }
        }
      }
      assert Injective(r') by {
        forall i, k | 0 <= i < last && 0 <= k < last && i != k
          ensures r'[i] != r'[k]
        {
          assert r[i] != r[k] && r[i] != v && r[k] != v;
        }
      }
      Pigeonhole(r', m - 1);
    }
  }

  /** A ranking uses every rank 1..|scores|: together with IsRanking, it is a permutation of 1..|scores|. */
  lemma RankingIsPermutation(scores: seq<real>, rank: seq<nat>)
    requires IsRanking(scores, rank)
    ensures forall v :: 1 <= v <= |rank| ==> v in rank
  {
    var n := |rank|;
    forall v | 1 <= v <= n
      ensures v in rank
    {
      if v !in rank {
        // Every rank n moves to the unused v: n values in 1..n-1, no two equal.
        var r' := seq(n, i requires 0 <= i < n => if rank[i] == n then v else rank[i]);
        assert forall i :: 0 <= i < n ==> 1 <= r'[i] <= n - 1 by {
          forall i | 0 <= i < n
            ensures 1 <= r'[i] <= n - 1
          {
            assert rank[i] != v;
          }
        }
        assert Injective(r') by {
          forall i, k | 0 <= i < n && 0 <= k < n && i != k
            ensures r'[i] != r'[k]
          {
            assert rank[i] != rank[k] && rank[i] != v && rank[k] != v;
          }
        }
        Pigeonhole(r', n - 1);
      }
    }
  }

  /** A better rank never goes with a lower score; with distinct scores, rank order is exactly score order. */
  lemma RankOrder(scores: seq<real>, rank: seq<nat>, i: nat, k: nat)
    requires IsRanking(scores, rank)
    requires i < |scores| && k < |scores|
    ensures rank[i] < rank[k] ==> scores[i] >= scores[k]
    ensures scores[i] != scores[k] ==> (rank[i] < rank[k] <==> scores[i] > scores[k])
  {
  }

  /** Three distinct scores leave exactly one ranking. */
  lemma DistinctScoresExample(rank: seq<nat>)
    requires IsRanking([0.2, 0.9, 0.5], rank)
    ensures rank == [3, 1, 2]
  {
    var s := [0.2, 0.9, 0.5];
    assert s[1] > s[2] && s[2] > s[0];
    assert rank[1] < rank[2] < rank[0];
  }

  /**
   * The unranked alternative with the highest score (the first such
   * position on a tie), or -1 when every alternative is ranked; rank 0
   * marks an unranked alternative.
   */
  method SelectBest(scores: seq<real>, rank: seq<nat>) returns (b: int)
    requires |rank| == |scores|
    ensures -1 <= b < |scores|
    ensures b == -1 <==> forall i :: 0 <= i < |rank| ==> rank[i] != 0
    ensures b >= 0 ==> rank[b] == 0
    ensures b >= 0 ==> forall i :: 0 <= i < |rank| && rank[i] == 0 ==> scores[i] <= scores[b]
  {
    b := -1;
    for i := 0 to |scores|
      invariant -1 <= b < i
      invariant b == -1 <==> forall k :: 0 <= k < i ==> rank[k] != 0
      invariant b >= 0 ==> rank[b] == 0
      invariant b >= 0 ==> forall k :: 0 <= k < i && rank[k] == 0 ==> scores[k] <= scores[b]
    {
      if rank[i] == 0 && (b == -1 || scores[i] > scores[b]) {
        b := i;
      }
    }
  }

  /**
   * The state of Rank after p selections: ord[..p] are the alternatives
   * ranked so far, best first, rk gives each its rank (0 if unranked) and
   * every ranked alternative scores at least as high as every unranked one.
   */
  ghost predicate Selected(scores: seq<real>, ord: seq<nat>, rk: seq<nat>, p: nat) {
    && |ord| == |rk| == |scores| && p <= |scores|
    && (forall q :: 0 <= q < p ==> ord[q] < |scores| && rk[ord[q]] == q + 1)
    && (forall i :: 0 <= i < |rk| ==> rk[i] <= p)
    && (forall i :: 0 <= i < |rk| && rk[i] != 0 ==> ord[rk[i] - 1] == i)
    && (forall i, k :: 0 <= i < |rk| && 0 <= k < |rk| && rk[i] != 0 && rk[k] == 0 ==> scores[i] >= scores[k])
    && (forall q, q' :: 0 <= q < q' < p ==> scores[ord[q]] >= scores[ord[q']])
  }

  /** Ranking the best unranked alternative next keeps Selected. */
  lemma SelectStep(scores: seq<real>, ord: seq<nat>, rk: seq<nat>, p: nat, b: nat)
    requires Selected(scores, ord, rk, p) && p < |scores|
    requires b < |rk| && rk[b] == 0
    requires forall i :: 0 <= i < |rk| && rk[i] == 0 ==> scores[i] <= scores[b]
    ensures Selected(scores, ord[p := b], rk[b := p + 1], p + 1)
  {
    var ord', rk' := ord[p := b], rk[b := p + 1];
    forall q | 0 <= q < p
      ensures ord'[q] < |scores| && rk'[ord'[q]] == q + 1
    {
      assert ord[q] != b;
    }
    forall q, q' | 0 <= q < q' < p + 1
      ensures scores[ord'[q]] >= scores[ord'[q']]
    {
      if q' == p {
        assert rk[ord[q]] == q + 1;
      }
    }
  }

  /** The ranks given so far are distinct. */
  lemma SelectedInjective(scores: seq<real>, ord: seq<nat>, rk: seq<nat>, p: nat)
    requires Selected(scores, ord, rk, p)
    ensures forall i, k :: 0 <= i < |rk| && 0 <= k < |rk| && i != k && rk[i] != 0 ==> rk[i] != rk[k]
  {
    forall i, k | 0 <= i < |rk| && 0 <= k < |rk| && i != k && rk[i] != 0
      ensures rk[i] != rk[k]
    {
      assert ord[rk[i] - 1] == i;
    }
  }

  /** Before the last selection some alternative is still unranked. */
  lemma SomeUnranked(scores: seq<real>, ord: seq<nat>, rk: seq<nat>, p: nat)
    requires Selected(scores, ord, rk, p) && p < |scores|
    ensures exists i :: 0 <= i < |rk| && rk[i] == 0
  {
    if forall i :: 0 <= i < |rk| ==> rk[i] != 0 {
      SelectedInjective(scores, ord, rk, p);
      Pigeonhole(rk, p);
    }
  }

  /** After the last selection every alternative is ranked. */
  lemma AllRanked(scores: seq<real>, ord: seq<nat>, rk: seq<nat>)
    requires Selected(scores, ord, rk, |scores|)
    ensures forall i :: 0 <= i < |rk| ==> rk[i] != 0
  {
    var n := |scores|;
    forall i | 0 <= i < n
      ensures rk[i] != 0
    {
      if rk[i] == 0 {
        // The n entries of ord would be n distinct alternatives other than i.
        var r' := seq(n, q requires 0 <= q < n => if ord[q] < i then ord[q] + 1 else ord[q]);
        assert forall q :: 0 <= q < n ==> 1 <= r'[q] <= n - 1 by {
          forall q | 0 <= q < n
            ensures 1 <= r'[q] <= n - 1
          {
            assert ord[q] != i;
          }
        }
        assert Injective(r') by {
          forall q, q' | 0 <= q < n && 0 <= q' < n && q != q'
            ensures r'[q] != r'[q']
          {
            assert ord[q] != ord[q'] by {
              assert rk[ord[q]] != rk[ord[q']];
            }
          }
        }
        Pigeonhole(r', n - 1);
      }
    }
  }

  /** The final state of Rank gives a descending order and a ranking, inverse to each other. */
  lemma SelectedIsRanking(scores: seq<real>, ord: seq<nat>, rk: seq<nat>)
    requires Selected(scores, ord, rk, |scores|)
    ensures IsDescendingOrder(scores, ord)
    ensures IsRanking(scores, rk)
  {
    var n := |scores|;
    AllRanked(scores, ord, rk);
    SelectedInjective(scores, ord, rk, n);
    assert Injective(ord) by {
      forall q, q' | 0 <= q < n && 0 <= q' < n && q != q'
        ensures ord[q] != ord[q']
      {
        assert rk[ord[q]] != rk[ord[q']];
      }
    }
    forall i, k | 0 <= i < n && 0 <= k < n && scores[i] > scores[k]
      ensures rk[i] < rk[k]
    {
      var q, q' := rk[i] - 1, rk[k] - 1;
      assert ord[q] == i && ord[q'] == k;
    }
  }

  /** One selection step of Rank: the best unranked alternative gets rank p + 1. */
  method SelectNext(scores: seq<real>, ord: array<nat>, rk: array<nat>, p: nat)
    requires ord != rk
    requires Selected(scores, ord[..], rk[..], p) && p < |scores|
    modifies ord, rk
    ensures Selected(scores, ord[..], rk[..], p + 1)
    ensures ord[p] < |scores| && old(rk[..])[ord[p]] == 0
    ensures forall i :: 0 <= i < |scores| && old(rk[..])[i] == 0 ==> scores[i] <= scores[ord[p]]
    ensures ord[..] == old(ord[..])[p := ord[p]]
    ensures rk[..] == old(rk[..])[ord[p] := p + 1]
  {
    ghost var ord0, rk0 := ord[..], rk[..];
    SomeUnranked(scores, ord0, rk0, p);
    var best := SelectBest(scores, rk[..]);
    var b: nat, r: nat := best, p + 1;
    SelectStep(scores, ord0, rk0, p, b);
    ord[p] := b;
    rk[b] := r;
    assert ord[..] == ord0[p := b] && rk[..] == rk0[b := r];
  }

  /**
   * argsort()[::-1] and its argsort, by selection: order[p] is the
   * alternative ranked p + 1, and rank is the inverse of order, shifted
   * to start at 1.
   */
  method Rank(scores: seq<real>) returns (order: seq<nat>, rank: seq<nat>)
    ensures IsDescendingOrder(scores, order)
    ensures IsRanking(scores, rank)
    ensures forall p :: 0 <= p < |order| ==> rank[order[p]] == p + 1
  {
    var n := |scores|;
    var ord := new nat[n](_ => 0);
    var rk := new nat[n](_ => 0);
    for p := 0 to n
      invariant Selected(scores, ord[..], rk[..], p)
    {
      SelectNext(scores, ord, rk, p);
    }
    order := ord[..];
    rank := rk[..];
    SelectedIsRanking(scores, order, rank);
  }
}

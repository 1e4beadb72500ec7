/**
 * The numeric core of topsis (topsis.py:68-95): vector normalisation of the
 * decision matrix, weighting, the ideal best and worst vectors, the
 * Euclidean separations from them and the relative closeness score.
 *
 * X is row-major: X[i][j] is alternative i on criterion j, every row of
 * length n. np.sqrt is the parameter sqrt, of which only IsSqrt is known.
 */
module Engine {
  import opened Wrappers
  import opened Errors
  import opened Seqs
  import opened Ranking

  /** sqrt returns the non-negative square root of every non-negative real. */
  ghost predicate IsSqrt(sqrt: real -> real) {
    forall x :: 0.0 <= x ==> 0.0 <= sqrt(x) && Square(sqrt(x)) == x
  }

  lemma SqrtZero(sqrt: real -> real, x: real)
    requires IsSqrt(sqrt) && 0.0 <= x
    ensures 0.0 <= sqrt(x)
    ensures sqrt(x) == 0.0 <==> x == 0.0
  {
    assert Square(sqrt(x)) == x;
  }

  /** Every row has n entries. */
  predicate IsMatrix(X: seq<seq<real>>, n: nat) {
    forall i :: 0 <= i < |X| ==> |X[i]| == n
  }

  /** X[:, j]. */
  function Column(X: seq<seq<real>>, n: nat, j: nat): (c: seq<real>)
    requires IsMatrix(X, n) && j < n
    ensures |c| == |X|
    ensures forall i :: 0 <= i < |X| ==> c[i] == X[i][j]
  {
    seq(|X|, i requires 0 <= i < |X| => X[i][j])
  }

  /** Criterion j is zero for every alternative. */
  predicate ZeroAt(X: seq<seq<real>>, n: nat, j: nat)
    requires IsMatrix(X, n) && j < n
  {
    forall i :: 0 <= i < |X| ==> X[i][j] == 0.0
  }

  /** Some criterion is zero for every alternative. */
  predicate ZeroColumn(X: seq<seq<real>>, n: nat)
    requires IsMatrix(X, n)
  {
    exists j :: 0 <= j < n && ZeroAt(X, n, j)
  }

  /** Every alternative has the same value on every criterion as every other. */
  predicate RowsIdentical(X: seq<seq<real>>, n: nat)
    requires IsMatrix(X, n)
  {
    forall i, k, j :: 0 <= i < |X| && 0 <= k < |X| && 0 <= j < n ==> X[i][j] == X[k][j]
  }

  /** denom: the Euclidean norm of every column (topsis.py:70). */
  function Norms(X: seq<seq<real>>, n: nat, sqrt: real -> real): (d: seq<real>)
    requires IsMatrix(X, n)
    ensures |d| == n
  {
    seq(n, j requires 0 <= j < n => sqrt(SumSq(Column(X, n, j))))
  }

  /** A column norm is non-negative, and zero exactly when the column is all zeros. */
  lemma NormZeroIff(X: seq<seq<real>>, n: nat, sqrt: real -> real, j: nat)
    requires IsMatrix(X, n) && IsSqrt(sqrt) && j < n
    ensures Norms(X, n, sqrt)[j] >= 0.0
    ensures Norms(X, n, sqrt)[j] == 0.0 <==> ZeroAt(X, n, j)
  {
    var c := Column(X, n, j);
    SqrtZero(sqrt, SumSq(c));
    if SumSq(c) == 0.0 {
      forall i | 0 <= i < |X|
        ensures X[i][j] == 0.0
      {
        assert c[i] == X[i][j];
      }
    }
  }

  /** np.any(denom == 0) holds exactly when some column is all zeros (topsis.py:71). */
  lemma AnyZeroNormIff(X: seq<seq<real>>, n: nat, sqrt: real -> real)
    requires IsMatrix(X, n) && IsSqrt(sqrt)
    ensures (exists j :: 0 <= j < n && Norms(X, n, sqrt)[j] == 0.0) <==> ZeroColumn(X, n)
    ensures forall j :: 0 <= j < n ==> Norms(X, n, sqrt)[j] >= 0.0
    ensures !ZeroColumn(X, n) ==> forall j :: 0 <= j < n ==> Norms(X, n, sqrt)[j] > 0.0
  {
    forall j | 0 <= j < n
      ensures Norms(X, n, sqrt)[j] >= 0.0
      ensures Norms(X, n, sqrt)[j] == 0.0 <==> ZeroAt(X, n, j)
    {
      NormZeroIff(X, n, sqrt, j);
    }
  }

  /** With at least one criterion and no zero column there is at least one alternative. */
  lemma HasAlternatives(X: seq<seq<real>>, n: nat)
    requires IsMatrix(X, n) && n >= 1
    ensures !ZeroColumn(X, n) ==> |X| >= 1
  {
    if |X| == 0 {
      assert ZeroAt(X, n, 0);
    }
  }

  /** R = X / denom: every entry divided by its column's norm (topsis.py:73). */
  function Normalize(X: seq<seq<real>>, n: nat, d: seq<real>): (R: seq<seq<real>>)
    requires IsMatrix(X, n) && |d| == n
    requires forall j :: 0 <= j < n ==> d[j] != 0.0
    ensures |R| == |X| && IsMatrix(R, n)
  {
    seq(|X|, i requires 0 <= i < |X| => seq(n, j requires 0 <= j < n => X[i][j] / d[j]))
  }

  /** X normalised by its own column norms, which no zero column leaves non-zero. */
  function Normalized(X: seq<seq<real>>, n: nat, sqrt: real -> real): (R: seq<seq<real>>)
    requires IsMatrix(X, n) && IsSqrt(sqrt) && !ZeroColumn(X, n)
    ensures |R| == |X| && IsMatrix(R, n)
  {
    AnyZeroNormIff(X, n, sqrt);
    Normalize(X, n, Norms(X, n, sqrt))
  }

  /** W = weights / weights.sum() (topsis.py:75). */
  function NormalizeWeights(w: seq<real>): (W: seq<real>)
    requires |w| >= 1 && forall k :: 0 <= k < |w| ==> w[k] > 0.0
    ensures |W| == |w|
  {
    SumPositive(w);
    Scale(w, 1.0 / Sum(w))
  }

  /** The normalised weights are positive and sum to 1. */
  lemma NormalizedWeights(w: seq<real>)
    requires |w| >= 1 && forall k :: 0 <= k < |w| ==> w[k] > 0.0
    ensures forall k :: 0 <= k < |w| ==> NormalizeWeights(w)[k] > 0.0
    ensures Sum(NormalizeWeights(w)) == 1.0
  {
    SumPositive(w);
    var r := 1.0 / Sum(w);
    SumScale(w, r);
    forall k | 0 <= k < |w|
      ensures NormalizeWeights(w)[k] > 0.0
    {
      ProductPositive(w[k], r);
    }
  }

  /** Multiplying every weight by the same positive factor leaves W unchanged. */
  lemma NormalizeWeightsScaleInvariant(w: seq<real>, c: real)
    requires |w| >= 1 && forall k :: 0 <= k < |w| ==> w[k] > 0.0
    requires c > 0.0
    ensures forall k :: 0 <= k < |w| ==> Scale(w, c)[k] > 0.0
    ensures NormalizeWeights(Scale(w, c)) == NormalizeWeights(w)
  {
    SumPositive(w);
    SumScale(w, c);
    var t, sc := Sum(w), Scale(w, c);
    forall k | 0 <= k < |w|
      ensures sc[k] > 0.0
    {
      ProductPositive(w[k], c);
    }
    var u := Sum(sc);
    var r, q := 1.0 / u, 1.0 / t;
    calc {
      NormalizeWeights(sc);
      Scale(sc, r);
      { ScaleScale(w, c, r); }
      Scale(w, c * r);
      { Reciprocal(t, c, u, r, q); }
      Scale(w, q);
      NormalizeWeights(w);
    }
  }

  /** Scaling twice is scaling by the product. */
  lemma ScaleScale(s: seq<real>, a: real, b: real)
    ensures Scale(Scale(s, a), b) == Scale(s, a * b)
  {
    forall k | 0 <= k < |s|
      ensures Scale(Scale(s, a), b)[k] == Scale(s, a * b)[k]
    {
      assert s[k] * a * b == s[k] * (a * b);
    }
  }

  lemma Reciprocal(t: real, c: real, u: real, r: real, q: real)
    requires t > 0.0 && c > 0.0 && u == t * c && r == 1.0 / u && q == 1.0 / t
    ensures c * r == q
  {
  }

  lemma ProductPositive(a: real, b: real)
    requires a > 0.0 && b > 0.0
    ensures a * b > 0.0
  {
  }


  /** V = R * W: every column multiplied by its weight (topsis.py:76). */
  function Weigh(R: seq<seq<real>>, n: nat, W: seq<real>): (V: seq<seq<real>>)
    requires IsMatrix(R, n) && |W| == n
    ensures |V| == |R| && IsMatrix(V, n)
  {
    seq(|R|, i requires 0 <= i < |R| => seq(n, j requires 0 <= j < n => R[i][j] * W[j]))
  }

  /** V[:, j].max(): attained by some alternative and bounding all of them. */
  function ColMax(V: seq<seq<real>>, n: nat, j: nat): (r: real)
    requires IsMatrix(V, n) && j < n && |V| >= 1
    ensures forall i :: 0 <= i < |V| ==> V[i][j] <= r
    ensures exists i :: 0 <= i < |V| && V[i][j] == r
  {
    if |V| == 1 then V[0][j]
    else
      var rest := ColMax(V[1..], n, j);
      assert forall i :: 1 <= i < |V| ==> V[i] == V[1..][i - 1];
      if V[0][j] >= rest then V[0][j] else rest
  }

  /** V[:, j].min(): attained by some alternative and bounded by all of them. */
  function ColMin(V: seq<seq<real>>, n: nat, j: nat): (r: real)
    requires IsMatrix(V, n) && j < n && |V| >= 1
    ensures forall i :: 0 <= i < |V| ==> r <= V[i][j]
    ensures exists i :: 0 <= i < |V| && V[i][j] == r
  {
    if |V| == 1 then V[0][j]
    else
      var rest := ColMin(V[1..], n, j);
      assert forall i :: 1 <= i < |V| ==> V[i] == V[1..][i - 1];
      if V[0][j] <= rest then V[0][j] else rest
  }

  /** ideal_best: the column maximum for a "+" criterion, the minimum otherwise. */
  function IdealBest(V: seq<seq<real>>, n: nat, impacts: seq<string>): (best: seq<real>)
    requires IsMatrix(V, n) && |V| >= 1 && |impacts| == n
    ensures |best| == n
  {
    seq(n, j requires 0 <= j < n => if impacts[j] == "+" then ColMax(V, n, j) else ColMin(V, n, j))
  }

  /** ideal_worst: the column minimum for a "+" criterion, the maximum otherwise. */
  function IdealWorst(V: seq<seq<real>>, n: nat, impacts: seq<string>): (worst: seq<real>)
    requires IsMatrix(V, n) && |V| >= 1 && |impacts| == n
    ensures |worst| == n
  {
    seq(n, j requires 0 <= j < n => if impacts[j] == "+" then ColMin(V, n, j) else ColMax(V, n, j))
  }

  /**
   * Every alternative lies between the ideals on every criterion: at most the
   * best and at least the worst on a "+" criterion, the other way round on a
   * "-" criterion, and each ideal is some alternative's value.
   */
  lemma IdealsBound(V: seq<seq<real>>, n: nat, impacts: seq<string>, j: nat)
    requires IsMatrix(V, n) && |V| >= 1 && |impacts| == n && j < n
    ensures impacts[j] == "+" ==> forall i :: 0 <= i < |V| ==>
      IdealWorst(V, n, impacts)[j] <= V[i][j] <= IdealBest(V, n, impacts)[j]
    ensures impacts[j] != "+" ==> forall i :: 0 <= i < |V| ==>
      IdealBest(V, n, impacts)[j] <= V[i][j] <= IdealWorst(V, n, impacts)[j]
    ensures exists i :: 0 <= i < |V| && V[i][j] == IdealBest(V, n, impacts)[j]
    ensures exists i :: 0 <= i < |V| && V[i][j] == IdealWorst(V, n, impacts)[j]
  {
    if impacts[j] == "+" {
      assert IdealBest(V, n, impacts)[j] == ColMax(V, n, j);
      assert IdealWorst(V, n, impacts)[j] == ColMin(V, n, j);
    } else {
      assert IdealBest(V, n, impacts)[j] == ColMin(V, n, j);
      assert IdealWorst(V, n, impacts)[j] == ColMax(V, n, j);
    }
  }

  /**
   * The loop of topsis.py:78-87: two zero-filled arrays, then for each
   * criterion its best and worst value by impact.
   */
  method FillIdeals(V: seq<seq<real>>, n: nat, impacts: seq<string>) returns (best: array<real>, worst: array<real>)
    requires IsMatrix(V, n) && |V| >= 1 && |impacts| == n
    ensures best[..] == IdealBest(V, n, impacts)
    ensures worst[..] == IdealWorst(V, n, impacts)
  {
    best := new real[n](_ => 0.0);
    worst := new real[n](_ => 0.0);
    ghost var bestSpec, worstSpec := IdealBest(V, n, impacts), IdealWorst(V, n, impacts);
    for j := 0 to n
      invariant best != worst
      invariant best[..j] == bestSpec[..j]
      invariant worst[..j] == worstSpec[..j]
    {
      if impacts[j] == "+" {
        best[j] := ColMax(V, n, j);
        worst[j] := ColMin(V, n, j);
      } else {
        best[j] := ColMin(V, n, j);
        worst[j] := ColMax(V, n, j);
      }
      assert best[..j + 1] == best[..j] + [bestSpec[j]];
      assert worst[..j + 1] == worst[..j] + [worstSpec[j]];
    }
    assert best[..] == best[..n];
    assert worst[..] == worst[..n];
  }

  /** row - target, entry by entry. */
  function Diff(row: seq<real>, target: seq<real>): (r: seq<real>)
    requires |row| == |target|
    ensures |r| == |row|
    ensures forall j :: 0 <= j < |row| ==> r[j] == row[j] - target[j]
  {
    seq(|row|, j requires 0 <= j < |row| => row[j] - target[j])
  }

  /** The Euclidean distance of row from target: non-negative, and zero exactly when they are equal. */
  function Distance(row: seq<real>, target: seq<real>, sqrt: real -> real): (r: real)
    requires |row| == |target| && IsSqrt(sqrt)
    ensures 0.0 <= r
    ensures r == 0.0 <==> row == target
  {
    var d := Diff(row, target);
    SqrtZero(sqrt, SumSq(d));
    assert row == target <==> forall j :: 0 <= j < |d| ==> d[j] == 0.0 by {
      if forall j :: 0 <= j < |d| ==> d[j] == 0.0 {
        assert forall j :: 0 <= j < |row| ==> row[j] == target[j];
      }
    }
    sqrt(SumSq(d))
  }

  /** S_plus or S_minus: every alternative's distance from target (topsis.py:89-90). */
  function Separations(V: seq<seq<real>>, n: nat, target: seq<real>, sqrt: real -> real): (s: seq<real>)
    requires IsMatrix(V, n) && |target| == n && IsSqrt(sqrt)
    ensures |s| == |V|
  {
    seq(|V|, i requires 0 <= i < |V| => Distance(V[i], target, sqrt))
  }

  /** A closeness score; 0/0 is NaN under IEEE arithmetic. */
  datatype Score = Value(v: real) | NaN

  /**
   * S_minus / (S_plus + S_minus) for one alternative (topsis.py:92): a number
   * in [0, 1], 1 exactly when S_plus is 0 and 0 exactly when S_minus is 0;
   * NaN exactly when both are 0.
   */
  function ScoreOf(sPlus: real, sMinus: real): (r: Score)
    requires 0.0 <= sPlus && 0.0 <= sMinus
    ensures r.NaN? <==> sPlus == 0.0 && sMinus == 0.0
    ensures r.Value? ==> 0.0 <= r.v <= 1.0
    ensures r.Value? ==> (r.v == 1.0 <==> sPlus == 0.0)
    ensures r.Value? ==> (r.v == 0.0 <==> sMinus == 0.0)
  {
    var t := sPlus + sMinus;
    if t == 0.0 then NaN
    else
      assert sMinus / t <= 1.0 by {
        assert sMinus / t * t == sMinus;
      }
      assert sMinus / t == 1.0 ==> sPlus == 0.0 by {
        assert sMinus / t * t == sMinus;
      }
      Value(sMinus / t)
  }

  /** What topsis demands of its arguments, as validate_inputs leaves them. */
  ghost predicate EngineInputs(X: seq<seq<real>>, n: nat, w: seq<real>, impacts: seq<string>, sqrt: real -> real) {
    && n >= 1 && IsMatrix(X, n) && |w| == n && |impacts| == n
    && (forall k :: 0 <= k < n ==> w[k] > 0.0)
    && IsSqrt(sqrt)
  }

  /** V: the normalised matrix with every column multiplied by its normalised weight. */
  function Weighted(X: seq<seq<real>>, n: nat, w: seq<real>, sqrt: real -> real): (V: seq<seq<real>>)
    requires IsMatrix(X, n) && IsSqrt(sqrt) && !ZeroColumn(X, n)
    requires |w| == n >= 1 && forall k :: 0 <= k < n ==> w[k] > 0.0
    ensures |V| == |X| && IsMatrix(V, n)
  {
    Weigh(Normalized(X, n, sqrt), n, NormalizeWeights(w))
  }

  /** The closeness score of every alternative, in row order (topsis.py:89-92). */
  function Scores(X: seq<seq<real>>, n: nat, w: seq<real>, impacts: seq<string>, sqrt: real -> real): (s: seq<Score>)
    requires EngineInputs(X, n, w, impacts, sqrt) && !ZeroColumn(X, n)
    ensures |s| == |X|
  {
    HasAlternatives(X, n);
    var V := Weighted(X, n, w, sqrt);
    var sPlus := Separations(V, n, IdealBest(V, n, impacts), sqrt);
    var sMinus := Separations(V, n, IdealWorst(V, n, impacts), sqrt);
    seq(|X|, i requires 0 <= i < |X| => ScoreOf(sPlus[i], sMinus[i]))
  }

  /**
   * What a score says about its alternative: NaN exactly when the
   * alternative equals both ideals, otherwise a number in [0, 1] that is 1
   * exactly at the ideal best and 0 exactly at the ideal worst.
   */
  lemma ScoreAt(X: seq<seq<real>>, n: nat, w: seq<real>, impacts: seq<string>, sqrt: real -> real, i: nat)
    requires EngineInputs(X, n, w, impacts, sqrt) && !ZeroColumn(X, n) && i < |X|
    ensures
      var V := Weighted(X, n, w, sqrt);
      var best, worst := IdealBest(V, n, impacts), IdealWorst(V, n, impacts);
      var s := Scores(X, n, w, impacts, sqrt)[i];
      && (s.NaN? <==> V[i] == best && V[i] == worst)
      && (s.Value? ==> 0.0 <= s.v <= 1.0)
      && (s == Value(1.0) <==> V[i] == best && V[i] != worst)
      && (s == Value(0.0) <==> V[i] == worst && V[i] != best)
  {
    var V := Weighted(X, n, w, sqrt);
    var best, worst := IdealBest(V, n, impacts), IdealWorst(V, n, impacts);
    var sPlus := Separations(V, n, best, sqrt);
    var sMinus := Separations(V, n, worst, sqrt);
    assert Scores(X, n, w, impacts, sqrt)[i] == ScoreOf(sPlus[i], sMinus[i]);
    assert sPlus[i] == Distance(V[i], best, sqrt);
    assert sMinus[i] == Distance(V[i], worst, sqrt);
  }

  /** An entry of V in terms of X: divided by a positive norm, multiplied by a positive weight. */
  lemma WeightedEntry(X: seq<seq<real>>, n: nat, w: seq<real>, sqrt: real -> real, i: nat, j: nat)
    requires IsMatrix(X, n) && IsSqrt(sqrt) && !ZeroColumn(X, n)
    requires |w| == n >= 1 && forall k :: 0 <= k < n ==> w[k] > 0.0
    requires i < |X| && j < n
    ensures Norms(X, n, sqrt)[j] > 0.0 && NormalizeWeights(w)[j] > 0.0
    ensures Weighted(X, n, w, sqrt)[i][j] == X[i][j] / Norms(X, n, sqrt)[j] * NormalizeWeights(w)[j]
  {
    AnyZeroNormIff(X, n, sqrt);
    NormalizedWeights(w);
  }

  /** Dividing by and multiplying by positive numbers is injective. */
  lemma Cancel(a: real, b: real, d: real, c: real)
    requires d > 0.0 && c > 0.0
    ensures a / d * c == b / d * c ==> a == b
  {
    if a / d * c == b / d * c {
      assert a / d == b / d;
      assert a == a / d * d;
    }
  }

  /** Two alternatives with the same V row have the same X row. */
  lemma SameWeightedRow(X: seq<seq<real>>, n: nat, w: seq<real>, sqrt: real -> real, i: nat, k: nat, j: nat)
    requires IsMatrix(X, n) && IsSqrt(sqrt) && !ZeroColumn(X, n)
    requires |w| == n >= 1 && forall k :: 0 <= k < n ==> w[k] > 0.0
    requires i < |X| && k < |X| && j < n
    ensures Weighted(X, n, w, sqrt)[i][j] == Weighted(X, n, w, sqrt)[k][j] <==> X[i][j] == X[k][j]
  {
    WeightedEntry(X, n, w, sqrt, i, j);
    WeightedEntry(X, n, w, sqrt, k, j);
    Cancel(X[i][j], X[k][j], Norms(X, n, sqrt)[j], NormalizeWeights(w)[j]);
  }

  /** If some row equals both ideals, every row equals it. */
  lemma IdealsMeet(V: seq<seq<real>>, n: nat, impacts: seq<string>, i: nat)
    requires IsMatrix(V, n) && |impacts| == n && i < |V|
    requires V[i] == IdealBest(V, n, impacts) && V[i] == IdealWorst(V, n, impacts)
    ensures forall k, j :: 0 <= k < |V| && 0 <= j < n ==> V[k][j] == V[i][j]
  {
    forall k, j | 0 <= k < |V| && 0 <= j < n
      ensures V[k][j] == V[i][j]
    {
      IdealsBound(V, n, impacts, j);
    }
  }

  /** If every row is the same, every row equals both ideals. */
  lemma ConstantRowsAreIdeal(V: seq<seq<real>>, n: nat, impacts: seq<string>, k: nat)
    requires IsMatrix(V, n) && |impacts| == n && k < |V|
    requires forall i, j :: 0 <= i < |V| && 0 <= j < n ==> V[i][j] == V[k][j]
    ensures V[k] == IdealBest(V, n, impacts) && V[k] == IdealWorst(V, n, impacts)
  {
    forall j | 0 <= j < n
      ensures V[k][j] == IdealBest(V, n, impacts)[j] && V[k][j] == IdealWorst(V, n, impacts)[j]
    {
      IdealsBound(V, n, impacts, j);
    }
  }

  /**
   * S_plus + S_minus is 0 for some alternative, making its score NaN,
   * exactly when all alternatives are identical; and then it is 0 for every
   * alternative.
   */
  lemma DegenerateIff(X: seq<seq<real>>, n: nat, w: seq<real>, impacts: seq<string>, sqrt: real -> real)
    requires EngineInputs(X, n, w, impacts, sqrt) && !ZeroColumn(X, n)
    ensures (exists i :: 0 <= i < |X| && Scores(X, n, w, impacts, sqrt)[i].NaN?) <==> RowsIdentical(X, n)
    ensures RowsIdentical(X, n) ==> forall i :: 0 <= i < |X| ==> Scores(X, n, w, impacts, sqrt)[i].NaN?
  {
    var V := Weighted(X, n, w, sqrt);
    var s := Scores(X, n, w, impacts, sqrt);
    if i :| 0 <= i < |X| && s[i].NaN? {
      ScoreAt(X, n, w, impacts, sqrt, i);
      IdealsMeet(V, n, impacts, i);
      forall k, l, j | 0 <= k < |X| && 0 <= l < |X| && 0 <= j < n
        ensures X[k][j] == X[l][j]
      {
        SameWeightedRow(X, n, w, sqrt, k, i, j);
        SameWeightedRow(X, n, w, sqrt, l, i, j);
      }
    }
    if RowsIdentical(X, n) {
      forall k | 0 <= k < |X|
        ensures s[k].NaN?
      {
        forall i, j | 0 <= i < |V| && 0 <= j < n
          ensures V[i][j] == V[k][j]
        {
          SameWeightedRow(X, n, w, sqrt, i, k, j);
        }
        ConstantRowsAreIdeal(V, n, impacts, k);
        ScoreAt(X, n, w, impacts, sqrt, k);
      }
      HasAlternatives(X, n);
      assert s[0].NaN?;
    }
  }

  /** Multiplying every weight by the same positive factor changes no score. */
  lemma ScoresWeightScaleInvariant(X: seq<seq<real>>, n: nat, w: seq<real>, impacts: seq<string>, sqrt: real -> real, c: real)
    requires EngineInputs(X, n, w, impacts, sqrt) && !ZeroColumn(X, n) && c > 0.0
    ensures EngineInputs(X, n, Scale(w, c), impacts, sqrt)
    ensures Scores(X, n, Scale(w, c), impacts, sqrt) == Scores(X, n, w, impacts, sqrt)
  {
    NormalizeWeightsScaleInvariant(w, c);
    assert Weighted(X, n, Scale(w, c), sqrt) == Weighted(X, n, w, sqrt);
  }

  /** Every impact direction reversed: "+" becomes "-", anything else "+". */
  function Flip(impacts: seq<string>): (r: seq<string>)
    ensures |r| == |impacts|
    ensures forall j :: 0 <= j < |impacts| ==> (r[j] == "+" <==> impacts[j] != "+")
  {
    seq(|impacts|, j requires 0 <= j < |impacts| => if impacts[j] == "+" then "-" else "+")
  }

  /** Reversing every impact swaps the two ideal points. */
  lemma FlipIdeals(V: seq<seq<real>>, n: nat, impacts: seq<string>)
    requires IsMatrix(V, n) && |V| >= 1 && |impacts| == n
    ensures IdealBest(V, n, Flip(impacts)) == IdealWorst(V, n, impacts)
    ensures IdealWorst(V, n, Flip(impacts)) == IdealBest(V, n, impacts)
  {
  }

  /** Swapping the two separations turns a closeness score into its complement. */
  lemma ScoreOfSwap(sPlus: real, sMinus: real)
    requires 0.0 <= sPlus && 0.0 <= sMinus
    ensures ScoreOf(sMinus, sPlus).NaN? <==> ScoreOf(sPlus, sMinus).NaN?
    ensures ScoreOf(sPlus, sMinus).Value? ==> ScoreOf(sMinus, sPlus) == Value(1.0 - ScoreOf(sPlus, sMinus).v)
  {
    var t := sPlus + sMinus;
    if t != 0.0 {
      var x, y := sPlus / t, sMinus / t;
      DivMul(sPlus, t, x);
      DivMul(sMinus, t, y);
      SharesSumToOne(sPlus, sMinus, t, x, y);
      assert sMinus + sPlus == t;
    }
  }

  lemma DivMul(a: real, t: real, x: real)
    requires t > 0.0 && x == a / t
    ensures x * t == a
  {
  }

  lemma SharesSumToOne(a: real, b: real, t: real, x: real, y: real)
    requires t > 0.0 && a + b == t && x * t == a && y * t == b
    ensures x + y == 1.0
  {
    assert (x + y) * t == x * t + y * t;
    assert (x - (1.0 - y)) * t == 0.0;
  }

  /** One alternative's score from its distances to the two ideals. */
  lemma ScoreEntry(X: seq<seq<real>>, n: nat, w: seq<real>, impacts: seq<string>, sqrt: real -> real, i: nat)
    requires EngineInputs(X, n, w, impacts, sqrt) && !ZeroColumn(X, n) && i < |X|
    ensures |X| >= 1
    ensures var V := Weighted(X, n, w, sqrt);
      Scores(X, n, w, impacts, sqrt)[i]
        == ScoreOf(Distance(V[i], IdealBest(V, n, impacts), sqrt), Distance(V[i], IdealWorst(V, n, impacts), sqrt))
  {
    HasAlternatives(X, n);
  }

  /**
   * Reversing every impact direction reverses the ranking effect: each
   * alternative's score becomes its complement 1 - score, and a NaN score
   * stays NaN.
   */
  lemma FlipScores(X: seq<seq<real>>, n: nat, w: seq<real>, impacts: seq<string>, sqrt: real -> real, i: nat)
    requires EngineInputs(X, n, w, impacts, sqrt) && !ZeroColumn(X, n) && i < |X|
    ensures EngineInputs(X, n, w, Flip(impacts), sqrt)
    ensures Scores(X, n, w, Flip(impacts), sqrt)[i].NaN? <==> Scores(X, n, w, impacts, sqrt)[i].NaN?
    ensures Scores(X, n, w, impacts, sqrt)[i].Value? ==>
      Scores(X, n, w, Flip(impacts), sqrt)[i] == Value(1.0 - Scores(X, n, w, impacts, sqrt)[i].v)
  {
    ScoreEntry(X, n, w, impacts, sqrt, i);
    ScoreEntry(X, n, w, Flip(impacts), sqrt, i);
    var V := Weighted(X, n, w, sqrt);
    FlipIdeals(V, n, impacts);
    var sPlus := Distance(V[i], IdealBest(V, n, impacts), sqrt);
    var sMinus := Distance(V[i], IdealWorst(V, n, impacts), sqrt);
    assert Scores(X, n, w, impacts, sqrt)[i] == ScoreOf(sPlus, sMinus);
    assert Scores(X, n, w, Flip(impacts), sqrt)[i] == ScoreOf(sMinus, sPlus);
    ScoreOfSwap(sPlus, sMinus);
  }

  /** The ordering key of a score: its value, with NaN (which arises only for all alternatives at once) as 0. */
  function Keys(s: seq<Score>): (k: seq<real>)
    ensures |k| == |s|
    ensures forall i :: 0 <= i < |s| && s[i].Value? ==> k[i] == s[i].v
  {
    seq(|s|, i requires 0 <= i < |s| => if s[i].Value? then s[i].v else 0.0)
  }

  /** The result of topsis: the score column and the rank column. */
  datatype Evaluation = Evaluation(scores: seq<Score>, ranks: seq<nat>)

  /**
   * topsis (topsis.py:68-95) on the matrix of validated criteria: the
   * zero-norm error exactly when some column is all zeros, and otherwise
   * the scores of Scores with ranks that order them.
   */
  method Topsis(X: seq<seq<real>>, n: nat, weights: seq<real>, impacts: seq<string>, sqrt: real -> real)
    returns (r: Result<Evaluation, Error>)
    requires EngineInputs(X, n, weights, impacts, sqrt)
    ensures r.Err? <==> ZeroColumn(X, n)
    ensures r.Err? ==> r.error == ZeroNormColumn
    ensures r.Ok? ==> r.value.scores == Scores(X, n, weights, impacts, sqrt)
    ensures r.Ok? ==> IsRanking(Keys(r.value.scores), r.value.ranks)
  {
    var denom := Norms(X, n, sqrt);
    AnyZeroNormIff(X, n, sqrt);
    if exists j :: 0 <= j < n && denom[j] == 0.0 {
      return Err(ZeroNormColumn);
    }
    var R := Normalize(X, n, denom);
    var W := NormalizeWeights(weights);
    var V := Weigh(R, n, W);
    HasAlternatives(X, n);
    var best, worst := FillIdeals(V, n, impacts);
    var sPlus := Separations(V, n, best[..], sqrt);
    var sMinus := Separations(V, n, worst[..], sqrt);
    var score := seq(|X|, i requires 0 <= i < |X| => ScoreOf(sPlus[i], sMinus[i]));
    var order, rank := Rank(Keys(score));
    return Ok(Evaluation(score, rank));
  }
}

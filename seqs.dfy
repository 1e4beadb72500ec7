/** Sums and order-preserving selection over sequences. */
module Seqs {

  /** The sum of the elements. */
  function Sum(s: seq<real>): real {
    if |s| == 0 then 0.0 else s[0] + Sum(s[1..])
  }

  /** Every element multiplied by c. */
  function Scale(s: seq<real>, c: real): (r: seq<real>)
    ensures |r| == |s|
  {
    seq(|s|, k requires 0 <= k < |s| => s[k] * c)
  }

  lemma {:induction false} SumScale(s: seq<real>, c: real)
    ensures Sum(Scale(s, c)) == Sum(s) * c
  {
    if |s| > 0 {
      assert forall k :: 0 <= k < |s| - 1 ==> Scale(s, c)[1..][k] == Scale(s[1..], c)[k];
      assert Scale(s, c)[1..] == Scale(s[1..], c);
      SumScale(s[1..], c);
    }
  }

  lemma {:induction false} SumPositive(s: seq<real>)
    requires forall k :: 0 <= k < |s| ==> s[k] > 0.0
    ensures |s| > 0 ==> Sum(s) > 0.0
  {
    if |s| > 1 {
      SumPositive(s[1..]);
    }
  }

  /** The sum of the squares; zero exactly when every element is zero. */
  function SumSq(s: seq<real>): (r: real)
    ensures 0.0 <= r
    ensures r == 0.0 <==> forall k :: 0 <= k < |s| ==> s[k] == 0.0
  {
    if |s| == 0 then 0.0
    else
      var rest := SumSq(s[1..]);
      assert forall k :: 1 <= k < |s| ==> s[k] == s[1..][k - 1];
      Square(s[0]) + rest
  }

  /** The identity on reals; see Square. */
  function Id(x: real): real {
    x
  }

  /**
   * x squared. The second factor is written Id(x): the solver in use loses
   * track of the sign of a product of a term with itself once that product
   * is equated with something else, and a product of two distinct terms
   * does not have that problem.
   */
  function Square(x: real): (r: real)
    ensures 0.0 <= r
    ensures r == 0.0 <==> x == 0.0
  {
    if x < 0.0 then
      assert (-x) * (-Id(x)) > 0.0;
      x * Id(x)
    else if x > 0.0 then
      assert x * Id(x) > 0.0;
      x * Id(x)
    else
      x * Id(x)
  }

  /**
   * The positions of the elements that satisfy p, in increasing order:
   * the filter of a list comprehension, by index.
   */
  function Select<T>(s: seq<T>, p: T -> bool): (r: seq<nat>)
    ensures forall k :: 0 <= k < |r| ==> r[k] < |s|
    ensures forall a, b :: 0 <= a < b < |r| ==> r[a] < r[b]
    ensures forall k :: 0 <= k < |r| ==> p(s[r[k]])
    ensures forall i :: 0 <= i < |s| ==> (p(s[i]) <==> i in r)
  {
    if |s| == 0 then []
    else
      var last := |s| - 1;
      var front := Select(s[..last], p);
      assert forall i :: 0 <= i < last ==> s[..last][i] == s[i];
      front + (if p(s[last]) then [last] else [])
  }
}

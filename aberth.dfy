/** The separation term of Aberth's method: for the approximation z_k, the sum
    of 1/(z_k - z_j) over every other approximation z_j.  Both evaluators of the
    calculator use it: the low-to-high one as a fold, the high-to-low one as a
    counting loop that is proved to compute the same sum. */
module Aberth {
  import opened ComplexNumbers

  /** z can be divided by its distance to every element of w. */
  predicate ApartFrom(z: Complex, w: seq<Complex>) {
    forall j :: 0 <= j < |w| ==> Invertible(Sub(z, w[j]))
  }

  /** No approximation before index n coincides with z_k, except z_k itself. */
  predicate SeparatedBelow(v: seq<Complex>, k: nat, n: nat)
    requires k < |v| && n <= |v|
  {
    forall j :: 0 <= j < n && j != k ==> Invertible(Sub(v[k], v[j]))
  }

  predicate Separated(v: seq<Complex>, k: nat)
    requires k < |v|
  {
    SeparatedBelow(v, k, |v|)
  }

  /** The fold over the first n approximations: index k leaves the accumulator
      as it is, every other index j adds 1/(z_k - z_j). */
  function SeparationPrefix(v: seq<Complex>, k: nat, n: nat): Complex
    requires k < |v| && n <= |v| && SeparatedBelow(v, k, n)
  {
    if n == 0 then Zero
    else
      var acc := SeparationPrefix(v, k, n - 1);
      if n - 1 != k then Add(acc, Div(One, Sub(v[k], v[n - 1]))) else acc
  }

  /** `offset_number_sum(v, k)`: the fold over the whole approximation vector. */
  function OffsetNumberSum(v: seq<Complex>, k: nat): Complex
    requires k < |v| && Separated(v, k)
  {
    SeparationPrefix(v, k, |v|)
  }

  /** Independent reference: Σ 1/(z - w_j) over every element of w. */
  function ReciprocalSum(z: Complex, w: seq<Complex>): Complex
    requires ApartFrom(z, w)
  {
    if w == [] then Zero
    else
      Add(ReciprocalSum(z, w[..|w| - 1]), Div(One, Sub(z, w[|w| - 1])))
  }

  /** The separation sum of z_k is the reciprocal sum over the vector with
      index k removed: index k is skipped and every other index counted once. */
  lemma {:induction false} OffsetNumberSumSkipsOwnIndex(v: seq<Complex>, k: nat)
    requires k < |v| && Separated(v, k)
    ensures ApartFrom(v[k], v[..k] + v[k + 1..])
    ensures OffsetNumberSum(v, k) == ReciprocalSum(v[k], v[..k] + v[k + 1..])
  {
    var rest := v[..k] + v[k + 1..];
    forall i | 0 <= i < |rest| ensures Invertible(Sub(v[k], rest[i])) {
      if i < k {
        assert rest[i] == v[i];
      } else {
        assert rest[i] == v[i + 1];
      }
    }
    PrefixIsReciprocalSum(v, k, |v|);
    assert v[k + 1..|v|] == v[k + 1..];
  }

  lemma {:induction false} PrefixIsReciprocalSum(v: seq<Complex>, k: nat, n: nat)
    requires k < |v| && n <= |v| && Separated(v, k)
    ensures n <= k ==> ApartFrom(v[k], v[..n]) && SeparationPrefix(v, k, n) == ReciprocalSum(v[k], v[..n])
    ensures k < n ==> ApartFrom(v[k], v[..k] + v[k + 1..n])
                      && SeparationPrefix(v, k, n) == ReciprocalSum(v[k], v[..k] + v[k + 1..n])
  {
    if n == 0 {
      assert v[..0] == [];
    } else {
      PrefixIsReciprocalSum(v, k, n - 1);
      if n <= k {
        assert v[..n][..n - 1] == v[..n - 1];
        assert v[..n][n - 1] == v[n - 1];
      } else if n - 1 == k {
        assert v[..k] + v[k + 1..n] == v[..k];
        assert v[..n - 1] == v[..k];
      } else {
        var w := v[..k] + v[k + 1..n];
        assert w[..|w| - 1] == v[..k] + v[k + 1..n - 1];
        assert w[|w| - 1] == v[n - 1];
      }
    }
  }
}

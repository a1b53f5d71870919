/** Division by a variable, which the solver needs help with. */
module Division {

  /** Division is determined by its remainder. */
  lemma DivisionIs(a: nat, d: nat, q: nat, rest: nat)
    requires d > 0 && a == d * q + rest && rest < d
    ensures a / d == q && a % d == rest
  {
    MultiplesApart(d, a / d, q);
    MultiplesApart(d, q, a / d);
  }

  lemma {:induction false} MultiplesApart(d: nat, p: nat, q: nat)
    ensures p < q ==> d * p + d <= d * q
    decreases q
  {
    if p < q {
      MultiplesApart(d, p, q - 1);
      assert d * q == d * (q - 1) + d;
    }
  }

  lemma Divided(i: nat, k: nat)
    requires k > 0
    ensures i == k * (i / k) + i % k && i % k < k
  {
  }
}

/** Division and remainder by a variable divisor. */
module Arithmetic {
  lemma {:induction false} MulMonotone(a: nat, b: nat, k: nat)
    requires a < b
    ensures a * k + k <= b * k
    decreases b
  {
    assert b * k == (b - 1) * k + k;
    if a < b - 1 {
      MulMonotone(a, b - 1, k);
    }
  }

  /** The quotient and remainder of a number written as q * k + r. */
  lemma DivModUnique(n: nat, k: nat, q: nat, r: nat)
    requires r < k && n == q * k + r
    ensures n / k == q && n % k == r
  {
    var q', r' := n / k, n % k;
    assert n == k * q' + r';
    if q' < q {
      MulMonotone(q', q, k);
      assert false;
    } else if q < q' {
      MulMonotone(q, q', k);
      assert false;
    }
  }

  lemma MultipleMod(q: nat, k: nat)
    requires k > 0
    ensures (q * k) % k == 0 && (q * k) / k == q
  {
    DivModUnique(q * k, k, q, 0);
  }

  lemma SubModulus(n: nat, k: nat)
    requires k > 0 && n >= k && n % k == 0
    ensures (n - k) % k == 0
  {
    var q := n / k;
    assert n == q * k;
    assert q > 0;
    assert n - k == (q - 1) * k;
    MultipleMod(q - 1, k);
  }

  lemma SmallMultiple(n: nat, k: nat)
    requires k > 0 && n % k == 0
    ensures n < k ==> n == 0
  {
  }

  lemma MulSucc(n: nat, m: nat)
    ensures (n + 1) * m == n * m + m
  {
  }

  /** n times m, by repeated addition. */
  function Repeated(n: nat, m: nat): nat {
    if n == 0 then 0 else Repeated(n - 1, m) + m
  }

  lemma {:induction false} RepeatedIsProduct(n: nat, m: nat)
    ensures Repeated(n, m) == n * m
    decreases n
  {
    if n > 0 {
      RepeatedIsProduct(n - 1, m);
      MulSucc(n - 1, m);
    }
  }

  lemma FewerMultiples(n: nat, bound: nat, m: nat, total: nat)
    requires Repeated(n, m) <= total < (bound + 1) * m
    ensures n <= bound
  {
    RepeatedIsProduct(n, m);
    var least: nat := bound + 1;
    if n > least {
      MulMonotone(least, n, m);
    }
  }

  lemma SmallMod(n: nat, k: nat)
    requires n < k
    ensures n % k == n
  {
    DivModUnique(n, k, 0, n);
  }

  /** n is a whole number of ks. */
  predicate Whole(n: nat, k: nat)
    requires k > 0
  {
    n == 0 || (n >= k && Whole(n - k, k))
  }

  lemma WholeStep(n: nat, k: nat)
    requires k > 0 && n > 0 && Whole(n, k)
    ensures n >= k && Whole(n - k, k)
  {
  }

  lemma {:induction false} MultipleIsWhole(n: nat, k: nat)
    requires k > 0 && n % k == 0
    ensures Whole(n, k)
    decreases n
  {
    if n > 0 {
      SmallMultiple(n, k);
      SubModulus(n, k);
      MultipleIsWhole(n - k, k);
    }
  }
}

/**
  How likely a leaf survives independent seizures: each of n shards has R
  copies, a shard survives unless all its copies are seized, and the leaf
  survives when at least k shards do.
 */
module StorageResilience {
  import opened Combinations

  function Power(x: real, n: nat): real {
    if n == 0 then 1.0 else x * Power(x, n - 1)
  }

  /** `a` with probability p, `b` otherwise. */
  function Mixed(p: real, a: real, b: real): real {
    p * a + (1.0 - p) * b
  }

  /** The probability that exactly j of n shards survive. */
  function Exactly(n: nat, j: nat, p: real): real
    requires j <= n
  {
    Choose(n, j) as real * Power(p, j) * Power(1.0 - p, n - j)
  }

  /** The sum of term(k) to term(n). */
  function SumFrom(term: nat -> real, n: nat, k: nat): real
    decreases n + 1 - k
  {
    if k > n then 0.0 else term(k) + SumFrom(term, n, k + 1)
  }

  function Terms(n: nat, p: real): nat -> real {
    (j: nat) => if j <= n then Exactly(n, j, p) else 0.0
  }

  /** The binomial upper tail, as the formula writes it. */
  function TailSum(n: nat, k: nat, p: real): real {
    SumFrom(Terms(n, p), n, k)
  }

  /** Survival of a leaf with k data shards, m parity shards and `copies` of each. */
  function Survival(k: nat, m: nat, copies: nat, frac: real): real {
    TailSum(k + m, k, 1.0 - Power(frac, copies))
  }

  // ------------------------------------------------------------ the recurrence

  lemma {:induction false} ChooseBeyond(n: nat, k: nat)
    requires k > n
    ensures Choose(n, k) == 0
    decreases n
  {
    if n > 0 {
      ChooseBeyond(n - 1, k - 1);
      ChooseBeyond(n - 1, k);
    }
  }

  /** One more shard: it survives and j - 1 of the others do, or it is lost and j of the others survive. */
  lemma ExactlyStep(n: nat, j: nat, p: real)
    requires 1 <= j <= n + 1
    ensures Exactly(n + 1, j, p)
            == Mixed(p, Exactly(n, j - 1, p), if j <= n then Exactly(n, j, p) else 0.0)
  {
    if j <= n {
      ExactlyInside(n, j, p);
    } else {
      ExactlyTop(n, p);
    }
  }

  lemma ExactlyInside(n: nat, j: nat, p: real)
    requires 1 <= j <= n
    ensures Exactly(n + 1, j, p) == Mixed(p, Exactly(n, j - 1, p), Exactly(n, j, p))
  {
    var q := 1.0 - p;
    var a, b := Choose(n, j - 1) as real, Choose(n, j) as real;
    var pj, qr := Power(p, j - 1), Power(q, n - j);
    var qn := Power(q, n + 1 - j);
    assert qn == q * qr;
    assert Power(p, j) == p * pj;
    assert Exactly(n + 1, j, p) == (a + b) * (p * pj) * qn;
    assert Exactly(n, j - 1, p) == a * pj * qn;
    assert Exactly(n, j, p) == b * (p * pj) * qr;
    Expand(a, b, p, pj, q, qr, qn);
  }

  lemma ExactlyTop(n: nat, p: real)
    ensures Exactly(n + 1, n + 1, p) == Mixed(p, Exactly(n, n, p), 0.0)
  {
    var a := Choose(n, n) as real;
    var pn, q0 := Power(p, n), Power(1.0 - p, 0);
    ChooseBeyond(n, n + 1);
    assert Choose(n + 1, n + 1) as real == a;
    assert Exactly(n + 1, n + 1, p) == a * (p * pn) * q0;
    assert Exactly(n, n, p) == a * pn * q0;
    Regroup3(a, p, pn, q0);
  }

  lemma Expand(a: real, b: real, p: real, pj: real, q: real, qr: real, qn: real)
    requires qn == q * qr
    ensures (a + b) * (p * pj) * qn == p * (a * pj * qn) + q * (b * (p * pj) * qr)
  {
    assert (a + b) * (p * pj) * qn == a * (p * pj) * qn + b * (p * pj) * qn;
    assert a * (p * pj) * qn == p * (a * pj * qn);
    assert b * (p * pj) * qn == q * (b * (p * pj) * qr);
  }

  lemma Regroup3(a: real, p: real, pj: real, qn: real)
    ensures (a + 0.0) * (p * pj) * qn == p * (a * pj * qn)
  {
  }

  lemma MixedSum(p: real, x: real, y: real, u: real, v: real)
    ensures Mixed(p, x + y, u + v) == Mixed(p, x, u) + Mixed(p, y, v)
    ensures Mixed(p, 0.0, 0.0) == 0.0
  {
  }

  /** The terms for one more shard come from the terms before it. */
  ghost predicate StepsAt(t: nat -> real, t': nat -> real, p: real, j: nat) {
    j >= 1 ==> t'(j) == Mixed(p, t(j - 1), t(j))
  }

  lemma {:induction false} SumStep(t: nat -> real, t': nat -> real, n: nat, k: nat, p: real)
    requires k >= 1 && t(n + 1) == 0.0 && forall j: nat :: StepsAt(t, t', p, j)
    ensures SumFrom(t', n + 1, k) == Mixed(p, SumFrom(t, n, k - 1), SumFrom(t, n, k))
    decreases n + 2 - k
  {
    if k <= n + 1 {
      SumStep(t, t', n, k + 1, p);
      assert StepsAt(t, t', p, k);
      assert SumFrom(t, n, k) == t(k) + SumFrom(t, n, k + 1);
      MixedSum(p, t(k - 1), SumFrom(t, n, k), t(k), SumFrom(t, n, k + 1));
    } else {
      MixedSum(p, 0.0, 0.0, 0.0, 0.0);
    }
  }

  lemma TailStep(n: nat, k: nat, p: real)
    requires k >= 1
    ensures TailSum(n + 1, k, p) == Mixed(p, TailSum(n, k - 1, p), TailSum(n, k, p))
  {
    var t, t' := Terms(n, p), Terms(n + 1, p);
    forall j: nat ensures StepsAt(t, t', p, j) {
      if 1 <= j <= n + 1 {
        ExactlyStep(n, j, p);
      } else {
        MixedSum(p, 0.0, 0.0, 0.0, 0.0);
      }
    }
    SumStep(t, t', n, k, p);
  }

  /** At least k of n survive, by the fate of the last shard. */
  function Tail(n: nat, k: nat, p: real): real {
    if k == 0 then 1.0
    else if n == 0 then 0.0
    else Mixed(p, Tail(n - 1, k - 1, p), Tail(n - 1, k, p))
  }

  lemma NoneSurvive(n: nat, p: real)
    requires n > 0
    ensures Exactly(n, 0, p) == Mixed(p, 0.0, Exactly(n - 1, 0, p))
  {
    assert Choose(n, 0) == 1 && Choose(n - 1, 0) == 1;
    assert Power(p, 0) == 1.0;
  }

  lemma MixedSame(p: real, a: real)
    ensures Mixed(p, a, a) == a
  {
  }

  lemma TotalStep(n: nat, p: real)
    requires n > 0 && TailSum(n - 1, 0, p) == 1.0
    ensures TailSum(n, 0, p) == 1.0
  {
    var none, some := Exactly(n - 1, 0, p), TailSum(n - 1, 1, p);
    assert none + some == 1.0;
    TailStep(n - 1, 1, p);
    NoneSurvive(n, p);
    MixedSum(p, 0.0, 1.0, none, some);
    MixedSame(p, 1.0);
    assert TailSum(n, 0, p) == Exactly(n, 0, p) + TailSum(n, 1, p);
  }

  /** The formula is the upper tail. */
  lemma {:induction false} TailSumIsTail(n: nat, k: nat, p: real)
    ensures TailSum(n, k, p) == Tail(n, k, p)
    decreases n
  {
    if n == 0 {
      EmptyTail(k, p);
    } else {
      TailSumIsTail(n - 1, k, p);
      if k == 0 {
        TotalStep(n, p);
      } else {
        TailSumIsTail(n - 1, k - 1, p);
        TailStep(n - 1, k, p);
      }
    }
  }

  lemma EmptyTail(k: nat, p: real)
    ensures TailSum(0, k, p) == if k == 0 then 1.0 else 0.0
  {
    if k == 0 {
      assert Choose(0, 0) == 1 && Power(p, 0) == 1.0 && Power(1.0 - p, 0) == 1.0;
      assert Exactly(0, 0, p) == 1.0 * 1.0 * 1.0;
      assert SumFrom(Terms(0, p), 0, 1) == 0.0;
    }
  }

  // --------------------------------------------------------- bounds and monotonicity

  lemma MulNonneg(x: real, y: real)
    requires x >= 0.0 && y >= 0.0
    ensures x * y >= 0.0
  {
  }

  lemma Mix(p: real, a: real, b: real)
    requires 0.0 <= p <= 1.0 && a >= b
    ensures b <= Mixed(p, a, b) <= a
  {
    MulNonneg(p, a - b);
    MulNonneg(1.0 - p, a - b);
  }

  /** The tail is a probability and does not grow with the threshold. */
  lemma {:induction false} TailBounds(n: nat, k: nat, p: real)
    requires 0.0 <= p <= 1.0
    ensures 0.0 <= Tail(n, k + 1, p) <= Tail(n, k, p) <= 1.0
    decreases n
  {
    if n > 0 {
      TailBounds(n - 1, k, p);
      Mix(p, Tail(n - 1, k, p), Tail(n - 1, k + 1, p));
      if k > 0 {
        TailBounds(n - 1, k - 1, p);
        Mix(p, Tail(n - 1, k - 1, p), Tail(n - 1, k, p));
      }
    }
  }

  lemma MixMonotone(p: real, p': real, a: real, b: real, a': real, b': real)
    requires 0.0 <= p <= p' <= 1.0 && b <= a <= a' && b <= b'
    ensures Mixed(p, a, b) <= Mixed(p', a', b')
  {
    MulNonneg(p' - p, a - b);
    MulNonneg(p', a' - a);
    MulNonneg(1.0 - p', b' - b);
  }

  /** The tail grows with the survival probability of a shard. */
  lemma {:induction false} TailMonotone(n: nat, k: nat, p: real, p': real)
    requires 0.0 <= p <= p' <= 1.0
    ensures Tail(n, k, p) <= Tail(n, k, p')
    decreases n
  {
    if k > 0 && n > 0 {
      TailMonotone(n - 1, k - 1, p, p');
      TailMonotone(n - 1, k, p, p');
      TailBounds(n - 1, k - 1, p);
      MixMonotone(p, p', Tail(n - 1, k - 1, p), Tail(n - 1, k, p), Tail(n - 1, k - 1, p'), Tail(n - 1, k, p'));
    }
  }

  lemma {:induction false} PowerBounds(x: real, n: nat)
    requires 0.0 <= x <= 1.0
    ensures 0.0 <= Power(x, n + 1) <= Power(x, n) <= 1.0
    decreases n
  {
    if n > 0 {
      PowerBounds(x, n - 1);
    }
    MulNonneg(x, Power(x, n));
    MulNonneg(1.0 - x, Power(x, n));
  }

  lemma {:induction false} PowerMonotone(x: real, y: real, n: nat)
    requires 0.0 <= x <= y <= 1.0
    ensures Power(x, n) <= Power(y, n)
    decreases n
  {
    if n > 0 {
      PowerMonotone(x, y, n - 1);
      PowerBounds(x, n - 1);
      MulNonneg(y - x, Power(x, n - 1));
      MulNonneg(y, Power(y, n - 1) - Power(x, n - 1));
    }
  }

  lemma SurvivalIsTail(k: nat, m: nat, copies: nat, frac: real)
    requires 0.0 <= frac <= 1.0
    ensures Survival(k, m, copies, frac) == Tail(k + m, k, 1.0 - Power(frac, copies))
    ensures 0.0 <= Power(frac, copies) <= 1.0
  {
    PowerBounds(frac, copies);
    TailSumIsTail(k + m, k, 1.0 - Power(frac, copies));
  }

  /** Survival is a probability. */
  lemma SurvivalIsProbability(k: nat, m: nat, copies: nat, frac: real)
    requires 0.0 <= frac <= 1.0
    ensures 0.0 <= Survival(k, m, copies, frac) <= 1.0
  {
    SurvivalIsTail(k, m, copies, frac);
    TailBounds(k + m, k, 1.0 - Power(frac, copies));
  }

  /** More seizure never helps. */
  lemma SurvivalFallsWithSeizure(k: nat, m: nat, copies: nat, frac: real, more: real)
    requires 0.0 <= frac <= more <= 1.0
    ensures Survival(k, m, copies, more) <= Survival(k, m, copies, frac)
  {
    SurvivalIsTail(k, m, copies, frac);
    SurvivalIsTail(k, m, copies, more);
    PowerMonotone(frac, more, copies);
    TailMonotone(k + m, k, 1.0 - Power(more, copies), 1.0 - Power(frac, copies));
  }

  /** A parity shard never hurts. */
  lemma ParityHelps(k: nat, m: nat, copies: nat, frac: real)
    requires 0.0 <= frac <= 1.0
    ensures Survival(k, m, copies, frac) <= Survival(k, m + 1, copies, frac)
  {
    var p := 1.0 - Power(frac, copies);
    SurvivalIsTail(k, m, copies, frac);
    SurvivalIsTail(k, m + 1, copies, frac);
    if k > 0 {
      TailBounds(k + m, k - 1, p);
      Mix(p, Tail(k + m, k - 1, p), Tail(k + m, k, p));
    }
  }

  /** Another copy of every shard never hurts. */
  lemma ReplicaHelps(k: nat, m: nat, copies: nat, frac: real)
    requires 0.0 <= frac <= 1.0
    ensures Survival(k, m, copies, frac) <= Survival(k, m, copies + 1, frac)
  {
    SurvivalIsTail(k, m, copies, frac);
    SurvivalIsTail(k, m, copies + 1, frac);
    PowerBounds(frac, copies);
    TailMonotone(k + m, k, 1.0 - Power(frac, copies), 1.0 - Power(frac, copies + 1));
  }

  // --------------------------------------------------------------- node by node

  /**
    The probability that `need` more shards survive, deciding one node after the
    other: n shards are left, the first with r copies still to be decided and
    the others with `copies` each, and each node is seized with probability frac.
   */
  function NodeByNode(n: nat, copies: nat, r: nat, need: nat, frac: real): real
    decreases n, r
  {
    if n == 0 then (if need == 0 then 1.0 else 0.0)
    else if r == 0 then NodeByNode(n - 1, copies, copies, need, frac)
    else Mixed(frac, NodeByNode(n, copies, r - 1, need, frac),
               NodeByNode(n - 1, copies, copies, if need == 0 then 0 else need - 1, frac))
  }

  lemma OneNode(n: nat, copies: nat, r: nat, need: nat, frac: real)
    ensures NodeByNode(n + 1, copies, r + 1, need, frac)
            == Mixed(frac, NodeByNode(n + 1, copies, r, need, frac),
                     NodeByNode(n, copies, copies, if need == 0 then 0 else need - 1, frac))
  {
  }

  /** A shard whose copies are decided one by one is lost only if all are seized. */
  lemma {:induction false} ShardByNodes(n: nat, copies: nat, r: nat, need: nat, frac: real, a: real, b: real)
    requires a == NodeByNode(n, copies, copies, if need == 0 then 0 else need - 1, frac)
    requires b == NodeByNode(n, copies, copies, need, frac)
    ensures NodeByNode(n + 1, copies, r, need, frac) == Mixed(1.0 - Power(frac, r), a, b)
    decreases r
  {
    if r > 0 {
      var m: nat := r - 1;
      ShardByNodes(n, copies, m, need, frac, a, b);
      OneNode(n, copies, m, need, frac);
      Regroup(frac, Power(frac, m), a, b);
    }
  }

  lemma Regroup(f: real, p: real, a: real, b: real)
    ensures Mixed(f, Mixed(1.0 - p, a, b), a) == Mixed(1.0 - f * p, a, b)
  {
    var x := f * p;
    assert f * ((1.0 - p) * a) == f * a - x * a;
    assert f * (p * b) == x * b;
    assert f * ((1.0 - p) * a + (1.0 - (1.0 - p)) * b) == f * ((1.0 - p) * a) + f * (p * b);
  }

  lemma {:induction false} TailByNodes(n: nat, copies: nat, need: nat, frac: real)
    ensures NodeByNode(n, copies, copies, need, frac) == Tail(n, need, 1.0 - Power(frac, copies))
    decreases n
  {
    if n > 0 {
      var m: nat, less: nat := n - 1, if need == 0 then 0 else need - 1;
      ShardByNodes(m, copies, copies, need, frac, NodeByNode(m, copies, copies, less, frac),
                   NodeByNode(m, copies, copies, need, frac));
      TailByNodes(m, copies, need, frac);
      TailByNodes(m, copies, less, frac);
    }
  }

  /** Survival is the chance that at least k shards keep a copy when every node falls on its own. */
  lemma SurvivalByNodes(k: nat, m: nat, copies: nat, frac: real)
    ensures Survival(k, m, copies, frac) == NodeByNode(k + m, copies, copies, k, frac)
  {
    TailSumIsTail(k + m, k, 1.0 - Power(frac, copies));
    TailByNodes(k + m, copies, k, frac);
  }
}

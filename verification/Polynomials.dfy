/**
  Polynomials over a field of characteristic two, as coefficient sequences with
  the constant term first, and Lagrange interpolation: `k` values at `k`
  distinct points determine a polynomial of `k` coefficients, and the formula
  the codec evaluates finds it.
 */
module Polynomials {
  import opened Common
  import opened Fields

  /** Horner evaluation of p[0] + p[1] x + p[2] x^2 + ... */
  ghost function Eval<T>(f: Field<T>, p: seq<T>, x: T): T {
    if p == [] then f.zero else f.add(f.mul(Eval(f, p[1..], x), x), p[0])
  }

  ghost function AddPoly<T>(f: Field<T>, p: seq<T>, q: seq<T>): (r: seq<T>)
    requires |p| == |q|
    ensures |r| == |p|
  {
    seq(|p|, i requires 0 <= i < |p| => f.add(p[i], q[i]))
  }

  ghost function Scale<T>(f: Field<T>, c: T, p: seq<T>): (r: seq<T>)
    ensures |r| == |p|
  {
    seq(|p|, i requires 0 <= i < |p| => f.mul(p[i], c))
  }

  ghost function Zeros<T>(f: Field<T>, n: nat): (r: seq<T>)
    ensures |r| == n
  {
    seq(n, _ => f.zero)
  }

  /** p times (x + r). */
  ghost function MulLinear<T>(f: Field<T>, p: seq<T>, r: T): (q: seq<T>)
    ensures |q| == |p| + 1
  {
    AddPoly(f, Scale(f, r, p) + [f.zero], [f.zero] + p)
  }

  ghost predicate Vanishes<T>(f: Field<T>, p: seq<T>, xs: seq<T>) {
    forall i :: 0 <= i < |xs| ==> Eval(f, p, xs[i]) == f.zero
  }

  // -------------------------------------------------- evaluation is a homomorphism

  lemma {:induction false} EvalAdd<T(!new)>(f: Field<T>, p: seq<T>, q: seq<T>, x: T)
    requires IsField(f) && |p| == |q|
    ensures Eval(f, AddPoly(f, p, q), x) == f.add(Eval(f, p, x), Eval(f, q, x))
  {
    if p == [] {
      assert LawsAt(f, f.zero, f.zero, f.zero);
    } else {
      var ep, eq := Eval(f, p[1..], x), Eval(f, q[1..], x);
      EvalAdd(f, p[1..], q[1..], x);
      assert AddPoly(f, p, q)[1..] == AddPoly(f, p[1..], q[1..]);
      assert LawsAt(f, x, ep, eq);
      assert LawsAt(f, f.add(ep, eq), x, x);
      assert LawsAt(f, ep, x, x);
      assert LawsAt(f, eq, x, x);
      AddSwapInner(f, f.mul(ep, x), f.mul(eq, x), p[0], q[0]);
    }
  }

  lemma {:induction false} EvalScale<T(!new)>(f: Field<T>, c: T, p: seq<T>, x: T)
    requires IsField(f)
    ensures Eval(f, Scale(f, c, p), x) == f.mul(Eval(f, p, x), c)
  {
    if p == [] {
      MulZero(f, c);
    } else {
      var e := Eval(f, p[1..], x);
      EvalScale(f, c, p[1..], x);
      assert Scale(f, c, p)[1..] == Scale(f, c, p[1..]);
      assert LawsAt(f, e, c, x);
      assert LawsAt(f, e, x, c);
      assert LawsAt(f, c, x, x);
      assert LawsAt(f, c, f.mul(e, x), p[0]);
      assert LawsAt(f, f.add(f.mul(e, x), p[0]), c, c);
      assert LawsAt(f, p[0], c, c);
      assert LawsAt(f, f.mul(e, x), c, c);
    }
  }

  lemma {:induction false} EvalAppendZero<T(!new)>(f: Field<T>, p: seq<T>, x: T)
    requires IsField(f)
    ensures Eval(f, p + [f.zero], x) == Eval(f, p, x)
  {
    if p == [] {
      assert (p + [f.zero])[1..] == [];
      MulZero(f, x);
      assert LawsAt(f, f.zero, f.zero, f.zero);
    } else {
      assert (p + [f.zero])[1..] == p[1..] + [f.zero];
      EvalAppendZero(f, p[1..], x);
    }
  }

  lemma EvalMulLinear<T(!new)>(f: Field<T>, p: seq<T>, r: T, x: T)
    requires IsField(f)
    ensures Eval(f, MulLinear(f, p, r), x) == f.mul(Eval(f, p, x), f.add(x, r))
  {
    var e := Eval(f, p, x);
    EvalAdd(f, Scale(f, r, p) + [f.zero], [f.zero] + p, x);
    EvalAppendZero(f, Scale(f, r, p), x);
    EvalScale(f, r, p, x);
    assert ([f.zero] + p)[1..] == p;
    assert LawsAt(f, f.mul(e, x), f.zero, x);
    assert LawsAt(f, e, x, r);
    assert LawsAt(f, f.mul(e, x), f.mul(e, r), r);
  }

  // ------------------------------------------------------------------- uniqueness

  /** The quotient of p by (x + r), by Horner's scheme. */
  ghost function Quotient<T>(f: Field<T>, p: seq<T>, r: T): (q: seq<T>)
    ensures |q| == if p == [] then 0 else |p| - 1
  {
    if |p| <= 1 then [] else [Eval(f, p[1..], r)] + Quotient(f, p[1..], r)
  }

  lemma {:induction false} QuotientRemainder<T(!new)>(f: Field<T>, p: seq<T>, r: T, x: T)
    requires IsField(f) && p != []
    ensures Eval(f, p, x) == f.add(f.mul(Eval(f, Quotient(f, p, r), x), f.add(x, r)), Eval(f, p, r))
  {
    var s, t := p[1..], f.add(x, r);
    var er := Eval(f, s, r);
    if |p| == 1 {
      MulZero(f, x);
      MulZero(f, r);
      MulZero(f, t);
      assert LawsAt(f, p[0], f.zero, f.zero);
      assert LawsAt(f, f.zero, p[0], p[0]);
    } else {
      var d := Eval(f, Quotient(f, s, r), x);
      QuotientRemainder(f, s, r, x);
      assert Quotient(f, p, r)[1..] == Quotient(f, s, r);
      calc {
        Eval(f, p, x);
        f.add(f.mul(f.add(f.mul(d, t), er), x), p[0]);
        { assert LawsAt(f, x, f.mul(d, t), er); assert LawsAt(f, f.add(f.mul(d, t), er), x, x);
          assert LawsAt(f, f.mul(d, t), x, x); assert LawsAt(f, er, x, x); }
        f.add(f.add(f.mul(f.mul(d, t), x), f.mul(er, x)), p[0]);
        { AddCancels(f, f.mul(er, x), f.mul(er, r)); assert LawsAt(f, er, x, r); }
        f.add(f.add(f.mul(f.mul(d, t), x), f.add(f.mul(er, t), f.mul(er, r))), p[0]);
        { assert LawsAt(f, f.mul(f.mul(d, t), x), f.mul(er, t), f.mul(er, r)); }
        f.add(f.add(f.add(f.mul(f.mul(d, t), x), f.mul(er, t)), f.mul(er, r)), p[0]);
        { assert LawsAt(f, f.add(f.mul(f.mul(d, t), x), f.mul(er, t)), f.mul(er, r), p[0]); }
        f.add(f.add(f.mul(f.mul(d, t), x), f.mul(er, t)), Eval(f, p, r));
        { assert LawsAt(f, d, t, x); assert LawsAt(f, d, x, t); assert LawsAt(f, t, x, x); }
        f.add(f.add(f.mul(f.mul(d, x), t), f.mul(er, t)), Eval(f, p, r));
        { assert LawsAt(f, t, f.mul(d, x), er); assert LawsAt(f, f.add(f.mul(d, x), er), t, t);
          assert LawsAt(f, f.mul(d, x), t, t); assert LawsAt(f, er, t, t); }
        f.add(f.mul(f.add(f.mul(d, x), er), t), Eval(f, p, r));
      }
    }
  }

  lemma {:induction false} QuotientZero<T(!new)>(f: Field<T>, p: seq<T>, r: T)
    requires IsField(f) && p != []
    requires Eval(f, p, r) == f.zero && Quotient(f, p, r) == Zeros(f, |p| - 1)
    ensures p == Zeros(f, |p|)
  {
    if |p| > 1 {
      var q := Quotient(f, p, r);
      assert q[0] == f.zero && q[1..] == Quotient(f, p[1..], r);
      assert q[1..] == Zeros(f, |p| - 2);
      QuotientZero(f, p[1..], r);
    }
    MulZero(f, r);
    assert LawsAt(f, f.zero, p[0], p[0]);
    assert LawsAt(f, p[0], f.zero, p[0]);
    assert p == [p[0]] + p[1..];
  }

  /** A polynomial with as many distinct roots as coefficients is the zero polynomial. */
  lemma {:induction false} RootsForceZero<T(!new)>(f: Field<T>, p: seq<T>, xs: seq<T>)
    requires IsField(f) && |xs| == |p|
    requires NoRepeats(xs) && Vanishes(f, p, xs)
    ensures p == Zeros(f, |p|)
    decreases |p|
  {
    if p != [] {
      var r, rest := xs[|xs| - 1], xs[..|xs| - 1];
      var q := Quotient(f, p, r);
      forall i | 0 <= i < |rest| ensures Eval(f, q, rest[i]) == f.zero {
        var x := rest[i];
        assert Eval(f, p, xs[i]) == f.zero;
        assert Eval(f, p, xs[|xs| - 1]) == f.zero;
        QuotientRemainder(f, p, r, x);
        var e, t := Eval(f, q, x), f.add(x, r);
        assert LawsAt(f, f.mul(e, t), f.zero, f.zero);
        AddCancels(f, x, r);
        if e != f.zero { MulNonzero(f, e, t); }
      }
      RootsForceZero(f, q, rest);
      QuotientZero(f, p, r);
    }
  }

  /** Values at |p| distinct points determine the coefficients. */
  lemma PointsDetermine<T(!new)>(f: Field<T>, p: seq<T>, q: seq<T>, xs: seq<T>)
    requires IsField(f) && |p| == |q| == |xs| && NoRepeats(xs)
    requires forall i :: 0 <= i < |xs| ==> Eval(f, p, xs[i]) == Eval(f, q, xs[i])
    ensures p == q
  {
    var d := AddPoly(f, p, q);
    forall i | 0 <= i < |xs| ensures Eval(f, d, xs[i]) == f.zero {
      EvalAdd(f, p, q, xs[i]);
      AddCancels(f, Eval(f, p, xs[i]), Eval(f, q, xs[i]));
    }
    RootsForceZero(f, d, xs);
    forall i | 0 <= i < |p| ensures p[i] == q[i] {
      assert d[i] == f.add(p[i], q[i]) == f.zero;
      AddCancels(f, p[i], q[i]);
    }
  }

  // --------------------------------------------------------------------- products

  /** Coefficient m of a[..n] times b: the sum of a[i] b[m - i]. */
  ghost function ProductCoefficient<T>(f: Field<T>, a: seq<T>, b: seq<T>, n: nat, m: nat): T
    requires n <= |a|
  {
    if n == 0 then f.zero
    else if n - 1 <= m < n - 1 + |b| then
      f.add(ProductCoefficient(f, a, b, n - 1, m), f.mul(a[n - 1], b[m - (n - 1)]))
    else ProductCoefficient(f, a, b, n - 1, m)
  }

  /** The coefficients of a[..n] times b, in the space of the whole product. */
  ghost function PartialProduct<T>(f: Field<T>, a: seq<T>, b: seq<T>, n: nat): (p: seq<T>)
    requires n <= |a| && a != [] && b != []
    ensures |p| == |a| + |b| - 1
  {
    seq(|a| + |b| - 1, m requires 0 <= m < |a| + |b| - 1 => ProductCoefficient(f, a, b, n, m))
  }

  lemma {:induction false} LinearCoefficient<T(!new)>(f: Field<T>, p: seq<T>, r: T, n: nat, m: nat)
    requires IsField(f) && n <= |p| && m <= |p|
    ensures ProductCoefficient(f, p, [r, f.one], n, m)
            == f.add(if m < n then f.mul(p[m], r) else f.zero, if 1 <= m <= n then p[m - 1] else f.zero)
    decreases n
  {
    assert LawsAt(f, f.zero, f.zero, f.zero);
    if n > 0 {
      LinearCoefficient(f, p, r, n - 1, m);
      if m == n {
        assert LawsAt(f, p[m - 1], f.zero, f.zero);
        assert LawsAt(f, f.zero, p[m - 1], f.zero);
      } else if m == n - 1 {
        var before := if 1 <= m then p[m - 1] else f.zero;
        assert LawsAt(f, before, f.zero, f.zero);
        assert LawsAt(f, f.zero, before, f.zero);
        assert LawsAt(f, before, f.mul(p[m], r), f.zero);
      }
    }
  }

  lemma ProductByLinear<T(!new)>(f: Field<T>, p: seq<T>, r: T)
    requires IsField(f) && p != []
    ensures PartialProduct(f, p, [r, f.one], |p|) == MulLinear(f, p, r)
  {
    forall m | 0 <= m <= |p|
      ensures PartialProduct(f, p, [r, f.one], |p|)[m] == MulLinear(f, p, r)[m]
    {
      LinearCoefficient(f, p, r, |p|, m);
    }
  }

  // ---------------------------------------------------------------- interpolation

  /** The product of (x + xs[j]) over j < n with j != skip. */
  ghost function Numerator<T>(f: Field<T>, xs: seq<T>, skip: int, n: nat): (p: seq<T>)
    requires n <= |xs|
    ensures |p| == if 0 <= skip < n then n else n + 1
  {
    if n == 0 then [f.one]
    else if n - 1 == skip then Numerator(f, xs, skip, n - 1)
    else MulLinear(f, Numerator(f, xs, skip, n - 1), xs[n - 1])
  }

  /** The same product with x given a value. */
  ghost function Product<T>(f: Field<T>, xs: seq<T>, skip: int, n: nat, x: T): T
    requires n <= |xs|
  {
    if n == 0 then f.one
    else if n - 1 == skip then Product(f, xs, skip, n - 1, x)
    else f.mul(Product(f, xs, skip, n - 1, x), f.add(x, xs[n - 1]))
  }

  /** The weight of the i-th basis polynomial: ys[i] divided by its value at xs[i]. */
  ghost function Weight<T>(f: Field<T>, xs: seq<T>, ys: seq<T>, i: nat): T
    requires i < |xs| == |ys|
  {
    f.mul(ys[i], f.inv(Product(f, xs, i, |xs|, xs[i])))
  }

  /** The sum of the first n weighted basis polynomials. */
  ghost function Lagrange<T>(f: Field<T>, xs: seq<T>, ys: seq<T>, n: nat): (p: seq<T>)
    requires n <= |xs| == |ys|
    ensures |p| == |xs|
  {
    if n == 0 then Zeros(f, |xs|)
    else AddPoly(f, Lagrange(f, xs, ys, n - 1),
                 Scale(f, Weight(f, xs, ys, n - 1), Numerator(f, xs, n - 1, |xs|)))
  }

  ghost function Interpolate<T>(f: Field<T>, xs: seq<T>, ys: seq<T>): (p: seq<T>)
    requires |xs| == |ys|
    ensures |p| == |xs|
  {
    Lagrange(f, xs, ys, |xs|)
  }

  lemma {:induction false} EvalNumerator<T(!new)>(f: Field<T>, xs: seq<T>, skip: int, n: nat, x: T)
    requires IsField(f) && n <= |xs|
    ensures Eval(f, Numerator(f, xs, skip, n), x) == Product(f, xs, skip, n, x)
    decreases n
  {
    if n == 0 {
      EvalOne(f, x);
    } else {
      var m: nat := n - 1;
      EvalNumerator(f, xs, skip, m, x);
      if m != skip {
        EvalMulLinear(f, Numerator(f, xs, skip, m), xs[m], x);
      }
    }
  }

  lemma EvalOne<T(!new)>(f: Field<T>, x: T)
    requires IsField(f)
    ensures Eval(f, [f.one], x) == f.one
  {
    assert Eval(f, [f.one][1..], x) == f.zero;
    MulZero(f, x);
    assert LawsAt(f, f.one, f.zero, f.one);
    assert LawsAt(f, f.zero, f.one, f.one);
  }

  /** The product is zero exactly when x is one of the points multiplied in. */
  lemma {:induction false} ProductZero<T(!new)>(f: Field<T>, xs: seq<T>, skip: int, n: nat, x: T)
    requires IsField(f) && n <= |xs|
    ensures Product(f, xs, skip, n, x) == f.zero <==> exists j :: 0 <= j < n && j != skip && xs[j] == x
    decreases n
  {
    if n > 0 {
      ProductZero(f, xs, skip, n - 1, x);
      if n - 1 != skip {
        var p, t := Product(f, xs, skip, n - 1, x), f.add(x, xs[n - 1]);
        AddCancels(f, x, xs[n - 1]);
        if p == f.zero {
          MulZero(f, t);
        } else if t == f.zero {
          MulZero(f, p);
        } else {
          MulNonzero(f, p, t);
        }
      }
    }
  }

  lemma {:induction false} EvalZeros<T(!new)>(f: Field<T>, n: nat, x: T)
    requires IsField(f)
    ensures Eval(f, Zeros(f, n), x) == f.zero
    decreases n
  {
    if n > 0 {
      assert Zeros(f, n)[1..] == Zeros(f, n - 1);
      EvalZeros(f, n - 1, x);
      MulZero(f, x);
      assert LawsAt(f, f.zero, f.zero, f.zero);
    }
  }

  /** A weighted basis polynomial takes its own value at its own point and vanishes at the others. */
  lemma EvalBasis<T(!new)>(f: Field<T>, xs: seq<T>, ys: seq<T>, i: nat, m: nat)
    requires IsField(f) && i < |xs| == |ys| && m < |xs| && NoRepeats(xs)
    ensures Eval(f, Scale(f, Weight(f, xs, ys, i), Numerator(f, xs, i, |xs|)), xs[m])
            == if m == i then ys[i] else f.zero
  {
    var w, d := Weight(f, xs, ys, i), Product(f, xs, i, |xs|, xs[i]);
    EvalScale(f, w, Numerator(f, xs, i, |xs|), xs[m]);
    EvalNumerator(f, xs, i, |xs|, xs[m]);
    ProductZero(f, xs, i, |xs|, xs[m]);
    if m == i {
      assert LawsAt(f, d, w, w);
      assert LawsAt(f, ys[i], f.inv(d), d);
      assert LawsAt(f, d, f.inv(d), d);
      assert LawsAt(f, ys[i], f.one, d);
    } else {
      MulZero(f, w);
    }
  }

  lemma {:induction false} EvalLagrange<T(!new)>(f: Field<T>, xs: seq<T>, ys: seq<T>, n: nat, m: nat)
    requires IsField(f) && n <= |xs| == |ys| && m < |xs| && NoRepeats(xs)
    ensures Eval(f, Lagrange(f, xs, ys, n), xs[m]) == if m < n then ys[m] else f.zero
    decreases n
  {
    if n == 0 {
      EvalZeros(f, |xs|, xs[m]);
    } else {
      EvalLagrange(f, xs, ys, n - 1, m);
      EvalBasis(f, xs, ys, n - 1, m);
      EvalSum(f, Lagrange(f, xs, ys, n - 1),
              Scale(f, Weight(f, xs, ys, n - 1), Numerator(f, xs, n - 1, |xs|)), xs[m],
              if m < n - 1 then ys[m] else f.zero, if m == n - 1 then ys[m] else f.zero);
    }
  }

  lemma EvalSum<T(!new)>(f: Field<T>, p: seq<T>, q: seq<T>, x: T, a: T, b: T)
    requires IsField(f) && |p| == |q|
    requires Eval(f, p, x) == a && Eval(f, q, x) == b && (a == f.zero || b == f.zero)
    ensures Eval(f, AddPoly(f, p, q), x) == if a == f.zero then b else a
  {
    EvalAdd(f, p, q, x);
    assert LawsAt(f, a, b, f.zero);
    assert LawsAt(f, b, a, f.zero);
  }

  /** Interpolating the values of a polynomial at |p| distinct points gives back its coefficients. */
  lemma InterpolateRecovers<T(!new)>(f: Field<T>, p: seq<T>, xs: seq<T>, ys: seq<T>)
    requires IsField(f) && |p| == |xs| == |ys| && NoRepeats(xs)
    requires forall i :: 0 <= i < |xs| ==> ys[i] == Eval(f, p, xs[i])
    ensures Interpolate(f, xs, ys) == p
  {
    forall i | 0 <= i < |xs| ensures Eval(f, Interpolate(f, xs, ys), xs[i]) == Eval(f, p, xs[i]) {
      EvalLagrange(f, xs, ys, |xs|, i);
    }
    PointsDetermine(f, Interpolate(f, xs, ys), p, xs);
  }
}

/**
  Fields of characteristic two, and the one construction of them that the
  dispersal codec relies on: a linear operator ("multiply by the generator")
  whose orbit of the unit runs through every nonzero element turns addition of
  exponents into a field multiplication.

  Laws are stated pointwise (`LawsAt`, `GroupLawsAt`) so that a proof names
  the instance it uses.
 */
module Fields {
  datatype Field<!T> = Field(zero: T, one: T, add: (T, T) -> T, mul: (T, T) -> T, inv: T -> T)

  ghost predicate LawsAt<T(!new)>(f: Field<T>, a: T, b: T, c: T) {
    && f.add(f.add(a, b), c) == f.add(a, f.add(b, c))
    && f.add(a, b) == f.add(b, a)
    && f.add(a, f.zero) == a
    && f.add(a, a) == f.zero
    && f.mul(f.mul(a, b), c) == f.mul(a, f.mul(b, c))
    && f.mul(a, b) == f.mul(b, a)
    && f.mul(a, f.one) == a
    && f.mul(a, f.add(b, c)) == f.add(f.mul(a, b), f.mul(a, c))
    && (a != f.zero ==> f.mul(a, f.inv(a)) == f.one)
  }

  ghost predicate IsField<T(!new)>(f: Field<T>) {
    && f.one != f.zero
    && forall a, b, c :: LawsAt(f, a, b, c)
  }

  lemma AddSwapInner<T(!new)>(f: Field<T>, a: T, b: T, c: T, d: T)
    requires IsField(f)
    ensures f.add(f.add(a, b), f.add(c, d)) == f.add(f.add(a, c), f.add(b, d))
  {
    assert LawsAt(f, a, b, f.add(c, d));
    assert LawsAt(f, b, c, d);
    assert LawsAt(f, c, b, d);
    assert LawsAt(f, a, c, f.add(b, d));
  }

  /** Adding the same element twice changes nothing. */
  lemma AddCancels<T(!new)>(f: Field<T>, a: T, b: T)
    requires IsField(f)
    ensures f.add(f.add(a, b), b) == a
    ensures f.add(b, f.add(b, a)) == a
    ensures f.add(a, b) == f.zero <==> a == b
  {
    assert LawsAt(f, a, b, b);
    assert LawsAt(f, b, a, a);
    assert LawsAt(f, b, b, a);
    assert LawsAt(f, a, f.zero, b);
    assert LawsAt(f, f.zero, a, b);
    assert LawsAt(f, f.zero, b, b);
  }

  lemma AddChanges<T(!new)>(f: Field<T>, a: T, b: T)
    requires IsField(f) && b != f.zero
    ensures f.add(a, b) != a
  {
    AddCancels(f, b, a);
    assert LawsAt(f, a, a, b);
  }

  lemma MulZero<T(!new)>(f: Field<T>, a: T)
    requires IsField(f)
    ensures f.mul(a, f.zero) == f.zero == f.mul(f.zero, a)
  {
    assert LawsAt(f, f.zero, f.zero, f.zero);
    assert LawsAt(f, a, f.zero, f.zero);
    assert LawsAt(f, f.mul(a, f.zero), f.zero, f.zero);
  }

  /** No zero divisors. */
  lemma MulNonzero<T(!new)>(f: Field<T>, a: T, b: T)
    requires IsField(f)
    requires a != f.zero && b != f.zero
    ensures f.mul(a, b) != f.zero
  {
    if f.mul(a, b) == f.zero {
      assert LawsAt(f, b, a, f.inv(a));
      assert LawsAt(f, a, b, f.inv(a));
      assert LawsAt(f, f.mul(b, a), f.inv(a), b);
      assert f.mul(f.mul(b, a), f.inv(a)) == b;
      MulZero(f, f.inv(a));
      assert false;
    }
  }

  // -------------------------------------------- fields from a cyclic generator

  /** A group of exponent two with a linear operator `step`. */
  datatype Generator<!T> = Generator(zero: T, one: T, add: (T, T) -> T, step: T -> T)

  ghost predicate GroupLawsAt<T(!new)>(g: Generator<T>, a: T, b: T, c: T) {
    && g.add(g.add(a, b), c) == g.add(a, g.add(b, c))
    && g.add(a, b) == g.add(b, a)
    && g.add(a, g.zero) == a
    && g.add(a, a) == g.zero
    && g.step(g.add(a, b)) == g.add(g.step(a), g.step(b))
  }

  ghost predicate IsLinear<T(!new)>(g: Generator<T>) {
    && g.one != g.zero
    && g.step(g.zero) == g.zero
    && forall a, b, c :: GroupLawsAt(g, a, b, c)
  }

  /** `b` after `n` applications of the operator. */
  function Powers<T>(g: Generator<T>, n: nat, b: T): T
    decreases n
  {
    if n == 0 then b else g.step(Powers(g, n - 1, b))
  }

  /** The `n`-th power of the generator. */
  function Exp<T>(g: Generator<T>, n: nat): T {
    Powers(g, n, g.one)
  }

  /** The first `order` powers of the generator are exactly the nonzero elements, and then they repeat. */
  ghost predicate Generates<T(!new)>(g: Generator<T>, order: nat) {
    && order > 0
    && Exp(g, order) == g.one
    && (forall n: nat :: n < order ==> Exp(g, n) != g.zero)
    && (forall i: nat, j: nat :: i < j < order ==> Exp(g, i) != Exp(g, j))
    && (forall a :: a != g.zero ==> InOrbit(g, order, a))
  }

  ghost predicate InOrbit<T>(g: Generator<T>, order: nat, a: T) {
    exists n: nat :: n < order && Exp(g, n) == a
  }

  ghost function Log<T(!new)>(g: Generator<T>, order: nat, a: T): (n: nat)
    requires Generates(g, order) && a != g.zero
    ensures n < order && Exp(g, n) == a
  {
    assert InOrbit(g, order, a);
    var n: nat :| n < order && Exp(g, n) == a;
    n
  }

  lemma {:induction false} PowersCompose<T>(g: Generator<T>, m: nat, n: nat, b: T)
    ensures Powers(g, m + n, b) == Powers(g, m, Powers(g, n, b))
    decreases m
  {
    if m > 0 { PowersCompose(g, m - 1, n, b); }
  }

  lemma PowersFour<T>(g: Generator<T>, n: nat)
    ensures Exp(g, n + 4) == g.step(g.step(g.step(g.step(Exp(g, n)))))
  {
    assert Exp(g, n + 1) == g.step(Exp(g, n));
    assert Exp(g, n + 2) == g.step(Exp(g, n + 1));
    assert Exp(g, n + 3) == g.step(Exp(g, n + 2));
  }

  lemma {:induction false} PowersAdditive<T(!new)>(g: Generator<T>, n: nat, a: T, b: T)
    requires IsLinear(g)
    ensures Powers(g, n, g.add(a, b)) == g.add(Powers(g, n, a), Powers(g, n, b))
    ensures Powers(g, n, g.zero) == g.zero
    decreases n
  {
    if n > 0 {
      PowersAdditive(g, n - 1, a, b);
      assert GroupLawsAt(g, Powers(g, n - 1, a), Powers(g, n - 1, b), a);
    }
  }

  /** Exponents count modulo the order. */
  lemma ExpWraps<T(!new)>(g: Generator<T>, order: nat, n: nat)
    requires Generates(g, order)
    ensures Exp(g, n + order) == Exp(g, n)
  {
    PowersCompose(g, n, order, g.one);
  }

  // The table product and inverse: look up logarithms, add or subtract, exponentiate.

  ghost function TableMul<T(!new)>(g: Generator<T>, order: nat, a: T, b: T): T
    requires Generates(g, order)
  {
    if a == g.zero || b == g.zero then g.zero else Exp(g, Log(g, order, a) + Log(g, order, b))
  }

  ghost function TableInv<T(!new)>(g: Generator<T>, order: nat, a: T): T
    requires Generates(g, order)
  {
    if a == g.zero then g.zero else Exp(g, order - Log(g, order, a))
  }

  ghost function TableField<T(!new)>(g: Generator<T>, order: nat): Field<T>
    requires Generates(g, order)
  {
    Field(g.zero, g.one, g.add, (a, b) => TableMul(g, order, a, b), a => TableInv(g, order, a))
  }

  lemma ExpNonzero<T(!new)>(g: Generator<T>, order: nat, n: nat)
    requires Generates(g, order)
    ensures Exp(g, n) != g.zero
    decreases n
  {
    if n >= order {
      ExpWraps(g, order, n - order);
      ExpNonzero(g, order, n - order);
    }
  }

  /** Multiplying by a nonzero `a` is applying the operator as often as its logarithm says. */
  lemma MulActs<T(!new)>(g: Generator<T>, order: nat, a: T, b: T)
    requires IsLinear(g) && Generates(g, order) && a != g.zero
    ensures TableMul(g, order, a, b) == Powers(g, Log(g, order, a), b)
  {
    if b == g.zero {
      PowersAdditive(g, Log(g, order, a), b, b);
    } else {
      PowersCompose(g, Log(g, order, a), Log(g, order, b), g.one);
    }
  }

  /** How often the operator was applied only matters through the power of the unit it gives. */
  lemma SamePowerActsAlike<T(!new)>(g: Generator<T>, order: nat, m: nat, n: nat, c: T)
    requires IsLinear(g) && Generates(g, order) && Exp(g, m) == Exp(g, n)
    ensures Powers(g, m, c) == Powers(g, n, c)
  {
    if c == g.zero {
      PowersAdditive(g, m, c, c);
      PowersAdditive(g, n, c, c);
    } else {
      var k := Log(g, order, c);
      PowersCompose(g, m, k, g.one);
      PowersCompose(g, k, m, g.one);
      PowersCompose(g, n, k, g.one);
      PowersCompose(g, k, n, g.one);
    }
  }

  lemma MulAssociates<T(!new)>(g: Generator<T>, order: nat, a: T, b: T, c: T)
    requires IsLinear(g) && Generates(g, order)
    ensures TableMul(g, order, TableMul(g, order, a, b), c) == TableMul(g, order, a, TableMul(g, order, b, c))
  {
    if a != g.zero && b != g.zero {
      var la, lb := Log(g, order, a), Log(g, order, b);
      var ab := TableMul(g, order, a, b);
      ExpNonzero(g, order, la + lb);
      MulActs(g, order, ab, c);
      MulActs(g, order, b, c);
      MulActs(g, order, a, TableMul(g, order, b, c));
      SamePowerActsAlike(g, order, Log(g, order, ab), la + lb, c);
      PowersCompose(g, la, lb, c);
    }
  }

  lemma MulDistributes<T(!new)>(g: Generator<T>, order: nat, a: T, b: T, c: T)
    requires IsLinear(g) && Generates(g, order)
    ensures TableMul(g, order, a, g.add(b, c)) == g.add(TableMul(g, order, a, b), TableMul(g, order, a, c))
  {
    assert GroupLawsAt(g, g.zero, g.zero, g.zero);
    if a != g.zero {
      MulActs(g, order, a, b);
      MulActs(g, order, a, c);
      MulActs(g, order, a, g.add(b, c));
      PowersAdditive(g, Log(g, order, a), b, c);
    }
  }

  lemma MulUnits<T(!new)>(g: Generator<T>, order: nat, a: T)
    requires IsLinear(g) && Generates(g, order)
    ensures TableMul(g, order, a, g.one) == a
    ensures a != g.zero ==> TableMul(g, order, a, TableInv(g, order, a)) == g.one
  {
    if a != g.zero {
      var n := Log(g, order, a);
      MulActs(g, order, a, g.one);
      MulActs(g, order, a, TableInv(g, order, a));
      PowersCompose(g, n, order - n, g.one);
    }
  }

  /** Exponents of a generator add up to a field multiplication. */
  lemma TableFieldIsField<T(!new)>(g: Generator<T>, order: nat)
    requires IsLinear(g) && Generates(g, order)
    ensures IsField(TableField(g, order))
  {
    var f := TableField(g, order);
    forall a: T, b: T, c: T ensures LawsAt(f, a, b, c) {
      assert GroupLawsAt(g, a, b, c);
      MulAssociates(g, order, a, b, c);
      MulDistributes(g, order, a, b, c);
      MulUnits(g, order, a);
    }
  }

  // -------------------------------------------------- the order of a generator

  /** A power that comes back to zero stays there, so powers below a period are nonzero. */
  lemma PeriodNonzero<T(!new)>(g: Generator<T>, n: nat, period: nat)
    requires IsLinear(g) && n <= period && Exp(g, period) == g.one
    ensures Exp(g, n) != g.zero
  {
    PowersCompose(g, period - n, n, g.one);
    PowersAdditive(g, period - n, g.zero, g.zero);
  }

  /** Two equal powers below a period give a shorter period. */
  lemma CollisionGivesPeriod<T>(g: Generator<T>, i: nat, j: nat, period: nat)
    requires i < j < period && Exp(g, period) == g.one && Exp(g, i) == Exp(g, j)
    ensures Exp(g, j - i) == g.one
  {
    PowersCompose(g, period - i, i, g.one);
    PowersCompose(g, period - i, j, g.one);
    PowersCompose(g, j - i, period, g.one);
  }

  lemma {:induction false} MultipleOfPeriod<T>(g: Generator<T>, d: nat, q: nat)
    requires Exp(g, d) == g.one
    ensures Exp(g, q * d) == g.one
    decreases q
  {
    if q > 0 {
      MultipleOfPeriod(g, d, q - 1);
      assert q * d == (q - 1) * d + d;
      PowersCompose(g, (q - 1) * d, d, g.one);
    }
  }

  /** From any period below `period`, Euclid's division reaches one that divides it. */
  lemma {:induction false} DividingPeriod<T>(g: Generator<T>, e: nat, period: nat) returns (d: nat, q: nat)
    requires 0 < e < period && Exp(g, e) == g.one == Exp(g, period)
    ensures 0 < d < period && Exp(g, d) == g.one && d * q == period
    decreases e
  {
    var r := period % e;
    q := period / e;
    assert period == e * q + r;
    if r == 0 {
      d := e;
    } else {
      MultipleOfPeriod(g, e, q);
      assert q * e == e * q;
      PowersCompose(g, r, e * q, g.one);
      d, q := DividingPeriod(g, r, period);
    }
  }

  // ------------------------------------------ multiplication by shifting and adding

  /** The sum of the images of `a` under the operator that the bits select. */
  ghost function SelectSum<T>(x: Generator<T>, a: T, bits: seq<bool>): T
    decreases |bits|
  {
    if bits == [] then x.zero
    else x.add(if bits[0] then a else x.zero, SelectSum(x, x.step(a), bits[1..]))
  }

  lemma GroupSwapInner<T(!new)>(g: Generator<T>, a: T, b: T, c: T, d: T)
    requires IsLinear(g)
    ensures g.add(g.add(a, b), g.add(c, d)) == g.add(g.add(a, c), g.add(b, d))
  {
    assert GroupLawsAt(g, a, b, g.add(c, d));
    assert GroupLawsAt(g, b, c, d);
    assert GroupLawsAt(g, c, b, d);
    assert GroupLawsAt(g, a, c, g.add(b, d));
  }

  lemma {:induction false} SelectSumAdditive<T(!new)>(x: Generator<T>, a: T, c: T, bits: seq<bool>)
    requires IsLinear(x)
    ensures SelectSum(x, x.add(a, c), bits) == x.add(SelectSum(x, a, bits), SelectSum(x, c, bits))
    decreases |bits|
  {
    assert GroupLawsAt(x, x.zero, x.zero, x.zero);
    if bits != [] {
      assert GroupLawsAt(x, a, c, c);
      SelectSumAdditive(x, x.step(a), x.step(c), bits[1..]);
      GroupSwapInner(x, if bits[0] then a else x.zero, if bits[0] then c else x.zero,
                     SelectSum(x, x.step(a), bits[1..]), SelectSum(x, x.step(c), bits[1..]));
    }
  }

  lemma SelectSumZero<T(!new)>(x: Generator<T>, bits: seq<bool>)
    requires IsLinear(x)
    ensures SelectSum(x, x.zero, bits) == x.zero
  {
    var s := SelectSum(x, x.zero, bits);
    assert GroupLawsAt(x, x.zero, x.zero, x.zero);
    SelectSumAdditive(x, x.zero, x.zero, bits);
    assert GroupLawsAt(x, s, s, s);
  }

  lemma {:induction false} SelectSumStep<T(!new)>(x: Generator<T>, a: T, bits: seq<bool>)
    requires IsLinear(x)
    ensures SelectSum(x, x.step(a), bits) == x.step(SelectSum(x, a, bits))
    decreases |bits|
  {
    if bits != [] {
      SelectSumStep(x, x.step(a), bits[1..]);
      assert GroupLawsAt(x, if bits[0] then a else x.zero, SelectSum(x, x.step(a), bits[1..]), a);
    }
  }

  /** When the generator is "one plus x", shifting and adding multiplies powers of the generator. */
  lemma {:induction false} SelectSumOfPower<T(!new)>(x: Generator<T>, g: Generator<T>, n: nat, bits: seq<bool>)
    requires IsLinear(x) && g == Generator(x.zero, x.one, x.add, g.step)
    requires forall a :: g.step(a) == x.add(a, x.step(a))
    ensures SelectSum(x, Exp(g, n), bits) == Powers(g, n, SelectSum(x, x.one, bits))
    decreases n
  {
    if n > 0 {
      var e := Exp(g, n - 1);
      SelectSumOfPower(x, g, n - 1, bits);
      SelectSumAdditive(x, e, x.step(e), bits);
      SelectSumStep(x, e, bits);
    }
  }

  ghost function Bit<T>(x: Generator<T>, bit: bool, a: T): T {
    if bit then a else x.zero
  }

  lemma SelectSumTwo<T>(x: Generator<T>, a: T, bits: seq<bool>)
    requires |bits| >= 2
    ensures SelectSum(x, a, bits)
            == x.add(Bit(x, bits[0], a),
               x.add(Bit(x, bits[1], x.step(a)), SelectSum(x, x.step(x.step(a)), bits[2..])))
  {
    assert bits[1..][1..] == bits[2..];
  }

  /** The eight-bit sum written out. */
  lemma SelectSumEight<T>(x: Generator<T>, a: T, bits: seq<bool>, b: T, c: T, d: T, e: T, f: T, g: T, h: T)
    requires |bits| == 8
    requires b == x.step(a) && c == x.step(b) && d == x.step(c) && e == x.step(d)
    requires f == x.step(e) && g == x.step(f) && h == x.step(g)
    ensures SelectSum(x, a, bits)
            == x.add(Bit(x, bits[0], a), x.add(Bit(x, bits[1], b),
               x.add(Bit(x, bits[2], c), x.add(Bit(x, bits[3], d),
               x.add(Bit(x, bits[4], e), x.add(Bit(x, bits[5], f),
               x.add(Bit(x, bits[6], g), x.add(Bit(x, bits[7], h), x.zero))))))))
  {
    SelectSumTwo(x, a, bits);
    SelectSumTwo(x, c, bits[2..]);
    SelectSumTwo(x, e, bits[4..]);
    SelectSumTwo(x, g, bits[6..]);
    assert bits[2..][2..] == bits[4..] && bits[4..][2..] == bits[6..] && bits[6..][2..] == [];
  }
}

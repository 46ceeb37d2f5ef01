/**
  GF(2^8) as `holographic_ida` computes it: exponential and logarithm tables
  for the generator 0x03, used for every product and every inverse.

  The reference is the multiplication of section 4.2 of FIPS 197: repeated
  `XTime` (multiplication by x modulo x^8 + x^4 + x^3 + x + 1, that is 0x11B)
  combined by exclusive or.
 */
module Gf256 {
  import opened Common
  import opened Fields
  import opened Octets

  function Add(a: byte, b: byte): byte {
    a ^ b
  }

  /** Multiplication by x, reduced modulo 0x11B. */
  function XTime(a: byte): byte {
    (a << 1) ^ (if a & 0x80 != 0 then 0x1B else 0)
  }

  /** Multiplication by the generator: 3 * x == x + 2 * x. */
  function Three(a: byte): byte {
    (a ^ (a << 1)) ^ (if a & 0x80 != 0 then 0x1B else 0)
  }

  ghost const G: Generator<byte> := Generator(0, 1, Add, Three)

  /** Over nine bits the reduction polynomial is the full 0x11B, and the result fits a byte. */
  lemma XTimeReducesModulo11B(a: byte)
    ensures (a as bv16 << 1) ^ (if a & 0x80 != 0 then 0x11B else 0) == XTime(a) as bv16
  {
  }

  // ------------------------------------------------------------------ linearity

  lemma ThreeIsXPlusOne(a: byte)
    ensures Three(a) == Add(a, XTime(a))
  {
  }

  lemma XorGroup(a: byte, b: byte, c: byte)
    ensures Add(Add(a, b), c) == Add(a, Add(b, c))
    ensures Add(a, b) == Add(b, a)
    ensures Add(a, 0) == a
    ensures Add(a, a) == 0
  {
  }

  lemma XorShift(a: byte, b: byte)
    ensures (a ^ b) << 1 == (a << 1) ^ (b << 1)
  {
  }

  lemma XorMask(a: byte, b: byte)
    ensures (a ^ b) & 0x80 == (a & 0x80) ^ (b & 0x80)
    ensures a & 0x80 == 0 || a & 0x80 == 0x80
    ensures b & 0x80 == 0 || b & 0x80 == 0x80
  {
  }

  lemma XTimeXor(a: byte, b: byte)
    ensures XTime(a ^ b) == XTime(a) ^ XTime(b)
  {
    XorShift(a, b);
    XorMask(a, b);
  }

  lemma XTimeAdditive(a: byte, b: byte)
    ensures XTime(Add(a, b)) == Add(XTime(a), XTime(b))
  {
    XTimeXor(a, b);
  }

  lemma ThreeXor(a: byte, b: byte)
    ensures Three(a ^ b) == Three(a) ^ Three(b)
  {
    XorMask(a, b);
    if a & 0x80 != 0 {
      if b & 0x80 != 0 {
        assert (a ^ b) & 0x80 == 0;
      } else {
        assert (a ^ b) & 0x80 != 0;
      }
    } else if b & 0x80 != 0 {
      assert (a ^ b) & 0x80 != 0;
    } else {
      assert (a ^ b) & 0x80 == 0;
    }
  }

  lemma ThreeAdditive(a: byte, b: byte)
    ensures Three(Add(a, b)) == Add(Three(a), Three(b))
  {
    ThreeXor(a, b);
  }

  lemma GeneratorIsLinear()
    ensures IsLinear(G)
  {
    forall a: byte, b: byte, c: byte ensures GroupLawsAt(G, a, b, c) {
      XorGroup(a, b, c);
      ThreeAdditive(a, b);
    }
  }

  // --------------------------------------------------- the order of the generator

  function Three4(a: byte): byte {
    Three(Three(Three(Three(a))))
  }

  /** Seventeen applications of the generator: 255 == 15 * 17. */
  function Three17(a: byte): byte {
    Three(Three4(Three4(Three4(Three4(a)))))
  }

  lemma PowersSeventeen(n: nat)
    ensures Exp(G, n + 17) == Three17(Exp(G, n))
  {
    var b := Exp(G, n);
    PowersFour(G, n);
    PowersFour(G, n + 4);
    PowersFour(G, n + 8);
    PowersFour(G, n + 12);
    assert Exp(G, n + 17) == G.step(Exp(G, n + 16));
  }

  lemma OrbitFirst()
    ensures Exp(G, 17) == 225
    ensures Exp(G, 51) == 12
    ensures Exp(G, 85) == 189
  {
    PowersSeventeen(0);  assert Exp(G, 17) == 225;
    PowersSeventeen(17); assert Exp(G, 34) == 92;
    PowersSeventeen(34); assert Exp(G, 51) == 12;
    PowersSeventeen(51); assert Exp(G, 68) == 224;
    PowersSeventeen(68);
  }

  lemma OrbitSecond()
    requires Exp(G, 85) == 189
    ensures Exp(G, 170) == 188
  {
    PowersSeventeen(85);  assert Exp(G, 102) == 80;
    PowersSeventeen(102); assert Exp(G, 119) == 236;
    PowersSeventeen(119); assert Exp(G, 136) == 93;
    PowersSeventeen(136); assert Exp(G, 153) == 237;
    PowersSeventeen(153);
  }

  lemma OrbitThird()
    requires Exp(G, 170) == 188
    ensures Exp(G, 255) == 1
  {
    PowersSeventeen(170); assert Exp(G, 187) == 177;
    PowersSeventeen(187); assert Exp(G, 204) == 176;
    PowersSeventeen(204); assert Exp(G, 221) == 81;
    PowersSeventeen(221); assert Exp(G, 238) == 13;
    PowersSeventeen(238);
  }

  lemma ProductAtLeast256(d: nat, q: nat)
    ensures d >= 16 && q >= 16 ==> d * q >= 256
  {
  }

  /** The proper divisors of 255 all divide 15, 51 or 85. */
  lemma DivisorsOf255(d: nat, q: nat)
    requires 0 < d < 255 && d * q == 255
    ensures exists m: nat :: m * d == 15 || m * d == 51 || m * d == 85
  {
    if d <= 15 {
      assert d == 1 || d == 2 || d == 3 || d == 4 || d == 5 || d == 6 || d == 7 || d == 8 || d == 9
          || d == 10 || d == 11 || d == 12 || d == 13 || d == 14 || d == 15;
      assert d == 1 || d == 3 || d == 5 || d == 15;
      assert 15 * d == 15 || 5 * d == 15 || 3 * d == 15 || 1 * d == 15;
    } else {
      ProductAtLeast256(d, q);
      assert q == 0 || q == 1 || q == 2 || q == 3 || q == 4 || q == 5 || q == 6 || q == 7 || q == 8
          || q == 9 || q == 10 || q == 11 || q == 12 || q == 13 || q == 14 || q == 15;
      assert d == 17 || d == 51 || d == 85;
      assert 3 * d == 51 || 1 * d == 51 || 1 * d == 85;
    }
  }

  /** No power of the generator below 255 is the unit again. */
  lemma NoShorterPeriod(e: nat)
    requires 0 < e < 255
    ensures Exp(G, e) != 1
  {
    if Exp(G, e) == 1 {
      OrbitFirst();
      OrbitSecond();
      OrbitThird();
      var d, q := DividingPeriod(G, e, 255);
      DivisorsOf255(d, q);
      var m: nat :| m * d == 15 || m * d == 51 || m * d == 85;
      MultipleOfPeriod(G, d, m);
      assert false;
    }
  }

  lemma ExpDistinct(i: nat, j: nat)
    requires i < j < 255
    ensures Exp(G, i) != Exp(G, j)
  {
    if Exp(G, i) == Exp(G, j) {
      OrbitFirst();
      OrbitSecond();
      OrbitThird();
      CollisionGivesPeriod(G, i, j, 255);
      NoShorterPeriod(j - i);
      assert false;
    }
  }

  // ------------------------------------------- every nonzero byte is a power of 3

  ghost function PowersBelow(n: nat): set<int> {
    set i: nat | i < n :: Exp(G, i) as int
  }

  lemma PowersBelowStep(n: nat)
    requires n > 0
    ensures PowersBelow(n) == PowersBelow(n - 1) + {Exp(G, n - 1) as int}
  {
  }

  lemma {:induction false} PowersBelowSize(n: nat)
    requires n <= 255
    ensures |PowersBelow(n)| == n
  {
    if n > 0 {
      PowersBelowSize(n - 1);
      var last := Exp(G, n - 1) as int;
      PowersBelowStep(n);
      forall i: nat | i < n - 1 ensures Exp(G, i) as int != last {
        ExpDistinct(i, n - 1);
        ByteIndex(Exp(G, i), Exp(G, n - 1));
      }
      assert last !in PowersBelow(n - 1);
    }
  }

  /** The integers 1 to n. */
  ghost function Interval(n: nat): (s: set<int>)
    ensures |s| == n
    ensures forall i :: i in s <==> 0 < i <= n
  {
    if n == 0 then {} else Interval(n - 1) + {n}
  }

  lemma EveryByteIsPower(a: byte)
    requires a != 0
    ensures InOrbit(G, 255, a)
  {
    OrbitFirst();
    OrbitSecond();
    OrbitThird();
    GeneratorIsLinear();
    forall i: nat | i < 255 ensures Exp(G, i) as int in Interval(255) {
      PeriodNonzero(G, i, 255);
      ByteIndex(Exp(G, i), 0);
      ByteNonzero(Exp(G, i));
    }
    assert PowersBelow(255) <= Interval(255);
    PowersBelowSize(255);
    SameSize(PowersBelow(255), Interval(255));
    ByteIndex(a, a);
    ByteNonzero(a);
    assert a as int in PowersBelow(255);
    var i: nat :| i < 255 && Exp(G, i) as int == a as int;
    ByteIndex(Exp(G, i), a);
  }

  lemma GeneratorGenerates()
    ensures Generates(G, 255)
  {
    OrbitFirst();
    OrbitSecond();
    OrbitThird();
    GeneratorIsLinear();
    forall n: nat | n < 255 ensures Exp(G, n) != G.zero {
      PeriodNonzero(G, n, 255);
    }
    forall i: nat, j: nat | i < j < 255 ensures Exp(G, i) != Exp(G, j) {
      ExpDistinct(i, j);
    }
    forall a: byte | a != G.zero ensures InOrbit(G, 255, a) {
      EveryByteIsPower(a);
    }
  }

  /** The field whose product and inverse the tables compute. */
  ghost function GF(): (f: Field<byte>)
    ensures IsField(f) && f.zero == 0 && f.one == 1
  {
    GeneratorGenerates();
    GeneratorIsLinear();
    TableFieldIsField(G, 255);
    TableField(G, 255)
  }

  // ------------------------------------------------- agreement with the reference

  ghost const X: Generator<byte> := Generator(0, 1, Add, XTime)

  /** The coefficients of `b` as a polynomial over GF(2), constant term first. */
  function Bits(b: byte): seq<bool> {
    [b & 1 != 0, b & 2 != 0, b & 4 != 0, b & 8 != 0, b & 16 != 0, b & 32 != 0, b & 64 != 0, b & 128 != 0]
  }

  /** The product of FIPS 197, section 4.2: the bits of `b` select successive XTime images of `a`. */
  ghost function FieldProduct(a: byte, b: byte): byte {
    SelectSum(X, a, Bits(b))
  }

  lemma XIsLinear()
    ensures IsLinear(X)
  {
    forall a: byte, b: byte, c: byte ensures GroupLawsAt(X, a, b, c) {
      XorGroup(a, b, c);
      XTimeAdditive(a, b);
    }
  }

  function Pick(bit: bool, a: byte): byte {
    if bit then a else 0
  }

  lemma BitsRecompose(b: byte)
    ensures Pick(b & 1 != 0, 1) ^ (Pick(b & 2 != 0, 2) ^ (Pick(b & 4 != 0, 4) ^ (Pick(b & 8 != 0, 8)
              ^ (Pick(b & 16 != 0, 16) ^ (Pick(b & 32 != 0, 32) ^ (Pick(b & 64 != 0, 64)
                ^ (Pick(b & 128 != 0, 128) ^ 0))))))) == b
  {
  }

  lemma PowersOfX()
    ensures XTime(1) == 2 && XTime(2) == 4 && XTime(4) == 8 && XTime(8) == 16
    ensures XTime(16) == 32 && XTime(32) == 64 && XTime(64) == 128
  {
  }

  lemma FieldProductOne(b: byte)
    ensures FieldProduct(1, b) == b
  {
    PowersOfX();
    SelectSumEight(X, 1, Bits(b), 2, 4, 8, 16, 32, 64, 128);
    BitsRecompose(b);
  }

  /** The table product is the product of FIPS 197, section 4.2. */
  lemma MulIsFieldProduct(a: byte, b: byte)
    ensures GF().mul(a, b) == FieldProduct(a, b)
  {
    GeneratorGenerates();
    GeneratorIsLinear();
    XIsLinear();
    if a != 0 {
      var n := Log(G, 255, a);
      forall c: byte ensures G.step(c) == X.add(c, X.step(c)) {
        ThreeIsXPlusOne(c);
      }
      SelectSumOfPower(X, G, n, Bits(b));
      FieldProductOne(b);
      MulActs(G, 255, a, b);
    } else {
      SelectSumZero(X, Bits(b));
    }
  }
}

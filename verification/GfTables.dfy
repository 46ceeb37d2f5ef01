/** The exponential and logarithm tables of `holographic_ida`, filled in place once and read-only from then on. */
module GfTables {
  import opened Fields
  import opened Gf256
  import opened Octets
  import opened Common

  class Tables {
    const exp: seq<byte>
    const log: seq<nat>
    /** The field the tables stand for. */
    ghost const f: Field<byte>

    ghost predicate AddAt(a: byte, b: byte) {
      f.add(a, b) == a ^ b
    }

    ghost predicate LogAt(a: byte)
    {
      && 0 <= a as int < |log|
      && (a != 0 ==> log[a as int] < 255)
    }

    ghost predicate MulAt(a: byte, b: byte)
    {
      && LogAt(a) && LogAt(b) && |exp| == 512
      && f.mul(a, b) == if a == 0 || b == 0 then 0 else exp[log[a as int] + log[b as int]]
    }

    ghost predicate InvAt(a: byte)
    {
      && LogAt(a) && |exp| == 512
      && (a != 0 ==> f.inv(a) == exp[255 - log[a as int]])
    }

    /** The tables agree with the field, entry by entry. */
    ghost predicate Valid()
    {
      && f.zero == 0 && f.one == 1
      && (forall a, b :: AddAt(a, b))
      && (forall a, b :: MulAt(a, b))
      && (forall a :: InvAt(a))
    }

    constructor ()
      ensures Valid() && f == GF()
    {
      var e := new byte[512](_ => 0);
      var l := new nat[256](_ => 0);
      FillPowers(e, l);
      RepeatPowers(e);
      exp, log, f := e[..], l[..], GF();
      new;
      Filled();
    }

    lemma FilledLog(a: byte)
      requires Generates(G, 255) && |log| == 256 && forall j: nat :: j < 255 ==> LogFilled(log, j)
      ensures LogAt(a) && (a != 0 ==> log[a as int] == Log(G, 255, a))
    {
      ByteIndex(a, a);
      if a != 0 {
        assert LogFilled(log, Log(G, 255, a));
      }
    }

    /** Filled tables are exactly what the field's product and inverse look up. */
    lemma Filled()
      requires |exp| == 512 && |log| == 256 && f == GF()
      requires forall j: nat :: j < 512 ==> exp[j] == Exp(G, j)
      requires forall j: nat :: j < 255 ==> LogFilled(log, j)
      ensures Valid()
    {
      GeneratorGenerates();
      forall a: byte ensures LogAt(a) && (a != 0 ==> log[a as int] == Log(G, 255, a)) {
        FilledLog(a);
      }
      forall a: byte, b: byte ensures MulAt(a, b) {
        assert LogAt(a) && LogAt(b);
      }
      forall a: byte ensures InvAt(a) {
        assert LogAt(a);
      }
    }

    method Add(a: byte, b: byte) returns (r: byte)
      requires Valid()
      ensures r == f.add(a, b)
    {
      assert AddAt(a, b);
      r := a ^ b;
    }

    method Mul(a: byte, b: byte) returns (r: byte)
      requires Valid()
      ensures r == f.mul(a, b)
    {
      assert MulAt(a, b);
      if a == 0 || b == 0 {
        return 0;
      }
      r := exp[log[a as int] + log[b as int]];
    }

    method Inv(a: byte) returns (r: Result<byte>)
      requires Valid()
      ensures r == if a == 0 then Err(ZeroDivision) else Ok(f.inv(a))
    {
      assert InvAt(a);
      if a == 0 {
        return Err(ZeroDivision);
      }
      r := Ok(exp[255 - log[a as int]]);
    }
  }

  /** Walk the powers of the generator, recording each power and its logarithm. */
  method FillPowers(e: array<byte>, l: array<nat>)
    requires e.Length == 512 && l.Length == 256
    modifies e, l
    ensures forall j: nat :: j < 255 ==> e[j] == Exp(G, j)
    ensures forall j: nat :: j < 255 ==> LogFilled(l[..], j)
  {
    var x: byte := 1;
    for i := 0 to 255
      invariant x == Exp(G, i)
      invariant forall j: nat :: j < i ==> e[j] == Exp(G, j)
      invariant forall j: nat :: j < i ==> LogFilled(l[..], j)
    {
      e[i] := x;
      RecordLog(l, x, i);
      x := Next(x);
    }
  }

  method RecordLog(l: array<nat>, x: byte, i: nat)
    requires l.Length == 256 && i < 255 && x == Exp(G, i)
    requires forall j: nat :: j < i ==> LogFilled(l[..], j)
    modifies l
    ensures forall j: nat :: j <= i ==> LogFilled(l[..], j)
  {
    ByteIndex(x, x);
    ghost var before := l[..];
    l[x as int] := i;
    assert l[..] == before[x as int := i];
    forall j: nat | j <= i ensures LogFilled(l[..], j) {
      LogsKept(before, x, i, j);
    }
  }

  /** Recording the logarithm of one power leaves those of the powers before it in place. */
  lemma LogsKept(l: seq<nat>, x: byte, i: nat, j: nat)
    requires |l| == 256 && j <= i < 255 && x == Exp(G, i) && (j < i ==> LogFilled(l, j)) && 0 <= x as int < 256
    ensures LogFilled(l[x as int := i], j)
  {
    if j < i {
      ExpDistinct(j, i);
      ByteIndex(Exp(G, j), x);
    }
  }

  /** 3 * x as x plus 2 * x. */
  method Next(x: byte) returns (y: byte)
    ensures y == Three(x)
  {
    var x2 := (x << 1) ^ (if x & 0x80 != 0 then 0x1B else 0);
    ThreeIsXPlusOne(x);
    y := x ^ x2;
  }

  /** The second half of the exponential table repeats the first, sparing a reduction modulo 255. */
  method RepeatPowers(e: array<byte>)
    requires e.Length == 512
    requires forall j: nat :: j < 255 ==> e[j] == Exp(G, j)
    modifies e
    ensures forall j: nat :: j < 512 ==> e[j] == Exp(G, j)
  {
    for i := 255 to 512
      invariant forall j: nat :: j < i ==> e[j] == Exp(G, j)
    {
      OrbitReturns(i - 255);
      e[i] := e[i - 255];
    }
  }

  /** Position j of the logarithm is in place. */
  ghost predicate LogFilled(l: seq<nat>, j: nat)
  {
    && 0 <= Exp(G, j) as int < |l|
    && l[Exp(G, j) as int] == j
  }

  lemma OrbitReturns(n: nat)
    ensures Exp(G, n + 255) == Exp(G, n)
  {
    GeneratorGenerates();
    ExpWraps(G, 255, n);
  }
}

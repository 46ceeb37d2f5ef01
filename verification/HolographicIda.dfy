/**
  Rabin's information dispersal over GF(2^8).

  A leaf is cut into blocks of k bytes, each block is the coefficient vector of
  a polynomial, and fragment x stores the value of every block at x.  Any k
  fragments determine every block.  `RoundTrip` is that claim end to end, and
  `FewerThanK` says exactly when fewer fragments leave the leaf undetermined.
 */
module HolographicIda {
  import opened Arithmetic
  import opened Fields
  import opened Polynomials
  import opened GfTables
  import opened Octets
  import opened Common
  import opened Sorting

  datatype Dispersal = Dispersal(k: nat, n: nat, origLen: nat, xs: seq<Point>, fragments: map<Point, seq<byte>>)

  // --------------------------------------------------------------- field routines

  /** Horner evaluation, from the last coefficient down. */
  method EvalPoly(t: Tables, coeffs: seq<byte>, x: byte) returns (acc: byte)
    requires t.Valid()
    ensures acc == Eval(t.f, coeffs, x)
  {
    acc := 0;
    for i := |coeffs| downto 0
      invariant acc == Eval(t.f, coeffs[i..], x)
    {
      assert coeffs[i..][1..] == coeffs[i + 1..];
      var scaled := t.Mul(acc, x);
      acc := t.Add(scaled, coeffs[i]);
    }
    assert coeffs[0..] == coeffs;
  }

  /** Schoolbook product of two coefficient lists. */
  method PolyMul(t: Tables, a: seq<byte>, b: seq<byte>) returns (r: seq<byte>)
    requires t.Valid() && IsField(t.f) && a != [] && b != []
    ensures r == PartialProduct(t.f, a, b, |a|)
  {
    var out := new byte[|a| + |b| - 1](_ => 0);
    for i := 0 to |a|
      invariant out[..] == PartialProduct(t.f, a, b, i)
    {
      if a[i] == 0 {
        SkipZeroRow(t.f, a, b, i);
        continue;
      }
      AddRow(t, out, a, b, i);
    }
    r := out[..];
  }

  method AddRow(t: Tables, out: array<byte>, a: seq<byte>, b: seq<byte>, i: nat)
    requires t.Valid() && i < |a| && b != [] && out.Length == |a| + |b| - 1
    requires out[..] == PartialProduct(t.f, a, b, i)
    modifies out
    ensures out[..] == PartialProduct(t.f, a, b, i + 1)
  {
    ghost var before := out[..];
    for j := 0 to |b|
      invariant forall m :: 0 <= m < out.Length ==>
        out[m] == if i <= m < i + j then t.f.add(before[m], t.f.mul(a[i], b[m - i])) else before[m]
    {
      var p := t.Mul(a[i], b[j]);
      var s := t.Add(out[i + j], p);
      out[i + j] := s;
    }
  }

  lemma SkipZeroRow(f: Field<byte>, a: seq<byte>, b: seq<byte>, i: nat)
    requires IsField(f) && i < |a| && b != [] && a[i] == f.zero
    ensures PartialProduct(f, a, b, i + 1) == PartialProduct(f, a, b, i)
  {
    forall m | 0 <= m < |a| + |b| - 1
      ensures ProductCoefficient(f, a, b, i + 1, m) == ProductCoefficient(f, a, b, i, m)
    {
      if i <= m < i + |b| {
        MulZero(f, b[m - i]);
        assert LawsAt(f, ProductCoefficient(f, a, b, i, m), f.zero, f.zero);
      }
    }
  }

  /** The numerator and denominator of the i-th basis polynomial. */
  method BasisPolynomial(t: Tables, xs: seq<byte>, i: nat) returns (num: seq<byte>, denom: byte)
    requires t.Valid() && IsField(t.f) && i < |xs|
    ensures num == Numerator(t.f, xs, i, |xs|)
    ensures denom == Product(t.f, xs, i, |xs|, xs[i])
  {
    num, denom := [1], 1;
    for j := 0 to |xs|
      invariant num == Numerator(t.f, xs, i, j)
      invariant denom == Product(t.f, xs, i, j, xs[i])
    {
      if j != i {
        num, denom := BasisStep(t, xs, i, j, num, denom);
      }
    }
  }

  method BasisStep(t: Tables, xs: seq<byte>, i: nat, j: nat, num: seq<byte>, denom: byte)
    returns (num': seq<byte>, denom': byte)
    requires t.Valid() && IsField(t.f) && i < |xs| && j < |xs| && j != i
    requires num == Numerator(t.f, xs, i, j) && denom == Product(t.f, xs, i, j, xs[i])
    ensures num' == Numerator(t.f, xs, i, j + 1) && denom' == Product(t.f, xs, i, j + 1, xs[i])
  {
    NumeratorStep(t.f, xs, i, j);
    num' := PolyMul(t, num, [xs[j], 1]);
    var diff := t.Add(xs[i], xs[j]);
    denom' := t.Mul(denom, diff);
  }

  lemma NumeratorStep(f: Field<byte>, xs: seq<byte>, i: nat, j: nat)
    requires IsField(f) && j < |xs| && j != i
    ensures Numerator(f, xs, i, j + 1)
            == PartialProduct(f, Numerator(f, xs, i, j), [xs[j], f.one], |Numerator(f, xs, i, j)|)
  {
    ProductByLinear(f, Numerator(f, xs, i, j), xs[j]);
  }

  method AddScaled(t: Tables, coeffs: seq<byte>, num: seq<byte>, scale: byte) returns (r: seq<byte>)
    requires t.Valid() && |num| == |coeffs|
    ensures r == AddPoly(t.f, coeffs, Scale(t.f, scale, num))
  {
    var out := new byte[|coeffs|](i requires 0 <= i < |coeffs| => coeffs[i]);
    for d := 0 to |num|
      invariant forall m :: 0 <= m < |coeffs| ==>
        out[m] == if m < d then t.f.add(coeffs[m], t.f.mul(num[m], scale)) else coeffs[m]
    {
      var p := t.Mul(num[d], scale);
      var s := t.Add(out[d], p);
      out[d] := s;
    }
    r := out[..];
  }

  /** Add the term of point i to the sum of those before it. */
  method AddTerm(t: Tables, xs: seq<byte>, ys: seq<byte>, i: nat, coeffs: seq<byte>) returns (r: Result<seq<byte>>)
    requires t.Valid() && IsField(t.f) && |xs| == |ys| && i < |xs| && coeffs == Lagrange(t.f, xs, ys, i)
    ensures r == if Duplicated(xs, i) then Err(ZeroDivision) else Ok(Lagrange(t.f, xs, ys, i + 1))
  {
    var num, denom := BasisPolynomial(t, xs, i);
    ProductZero(t.f, xs, i, |xs|, xs[i]);
    var inverse := t.Inv(denom);
    if inverse.Err? {
      return Err(ZeroDivision);
    }
    var scale := t.Mul(ys[i], inverse.value);
    var sum := AddScaled(t, coeffs, num, scale);
    r := Ok(sum);
  }

  /** Coefficients from values; a repeated point makes a denominator zero. */
  method InterpolateCoeffs(t: Tables, xs: seq<byte>, ys: seq<byte>) returns (r: Result<seq<byte>>)
    requires t.Valid() && IsField(t.f) && |xs| == |ys|
    ensures r == if NoRepeats(xs) then Ok(Interpolate(t.f, xs, ys)) else Err(ZeroDivision)
  {
    var coeffs := seq(|xs|, _ => 0 as byte);
    for i := 0 to |xs|
      invariant forall m :: 0 <= m < i ==> !Duplicated(xs, m)
      invariant coeffs == Lagrange(t.f, xs, ys, i)
    {
      var more := AddTerm(t, xs, ys, i, coeffs);
      if more.Err? {
        return Err(ZeroDivision);
      }
      coeffs := more.value;
    }
    forall i, j | 0 <= i < j < |xs| ensures xs[i] != xs[j] {
      assert !Duplicated(xs, i);
    }
    r := Ok(coeffs);
  }

  ghost predicate Duplicated(xs: seq<byte>, i: nat)
    requires i < |xs|
  {
    exists j :: 0 <= j < |xs| && j != i && xs[j] == xs[i]
  }

  // ------------------------------------------------------------------ dispersal

  function ByteOf(x: Point): byte {
    ByteAt(x)
  }

  lemma ByteOfInjective(x: Point, y: Point)
    requires x != y
    ensures ByteOf(x) != ByteOf(y)
  {
    assert ByteOf(x) as int == x && ByteOf(y) as int == y;
  }

  /** The leaf followed by the zero bytes that complete its last block. */
  function Pad(leaf: seq<byte>, k: nat): (data: seq<byte>)
    requires k > 0
    ensures Whole(|data|, k) && leaf <= data
  {
    var pad := (k - |leaf| % k) % k;
    PadLength(|leaf|, k);
    leaf + seq(pad, _ => 0 as byte)
  }

  lemma PadLength(n: nat, k: nat)
    requires k > 0
    ensures Whole(n + (k - n % k) % k, k)
  {
    if n % k == 0 {
      MultipleMod(1, k);
      MultipleIsWhole(n, k);
    } else {
      SmallMod(k - n % k, k);
      NextMultiple(n, k, n / k, n % k);
    }
  }

  lemma NextMultiple(n: nat, k: nat, q: nat, r: nat)
    requires r < k && n == q * k + r
    ensures Whole(n + (k - r), k)
  {
    MulSucc(q, k);
    MultipleMod(q + 1, k);
    MultipleIsWhole((q + 1) * k, k);
  }

  /** The value of every block of `data` at x. */
  ghost function Values(f: Field<byte>, data: seq<byte>, k: nat, x: byte): (r: seq<byte>)
    requires k > 0
    decreases |data|
  {
    if |data| < k then [] else [Eval(f, data[..k], x)] + Values(f, data[k..], k, x)
  }

  /** What `disperse` stores at x. */
  ghost function Fragment(f: Field<byte>, leaf: seq<byte>, k: nat, x: Point): seq<byte>
    requires k > 0
  {
    Values(f, Pad(leaf, k), k, ByteOf(x))
  }

  predicate ValidPoints(points: seq<Point>, n: nat) {
    && |points| == n
    && (forall i, j :: 0 <= i < j < |points| ==> points[i] != points[j])
    && (forall i :: 0 <= i < |points| ==> points[i] != 0)
  }

  function DefaultPoints(n: nat): (points: seq<Point>)
    requires n <= 255
  {
    seq(n, i requires 0 <= i < n => i + 1)
  }

  ghost function Dispersed(f: Field<byte>, leaf: seq<byte>, k: nat, points: seq<Point>): Dispersal
    requires k > 0
  {
    Dispersal(k, |points|, |leaf|, points, map x: Point | x in points :: Fragment(f, leaf, k, x))
  }

  method Disperse(t: Tables, leaf: seq<byte>, k: nat, n: nat, xs: Option<seq<Point>>)
    returns (r: Result<Dispersal>)
    requires t.Valid()
    ensures r.Ok? <==> 1 <= k <= n <= 255 && (xs.Some? ==> ValidPoints(xs.value, n))
    ensures r.Err? ==> r.error == ValueError
    ensures r.Ok? ==> r.value == Dispersed(t.f, leaf, k, if xs.Some? then xs.value else DefaultPoints(n))
  {
    if !(1 <= k <= n <= 255) {
      return Err(ValueError);
    }
    var points := if xs.Some? then xs.value else DefaultPoints(n);
    if !ValidPoints(points, n) {
      return Err(ValueError);
    }
    var codes := seq(n, i requires 0 <= i < n => ByteOf(points[i]));
    var frags := DisperseBlocks(t, Pad(leaf, k), k, points, codes);
    FragmentsAre(t.f, leaf, k, points, codes, frags);
    r := Ok(Dispersal(k, n, |leaf|, points, frags));
  }

  lemma FragmentsAre(f: Field<byte>, leaf: seq<byte>, k: nat, points: seq<Point>, codes: seq<byte>,
                     frags: map<Point, seq<byte>>)
    requires k > 0 && |codes| == |points|
    requires forall i :: 0 <= i < |points| ==> codes[i] == ByteOf(points[i])
    requires AllBuilt(f, frags, points, codes, Pad(leaf, k), k, |Pad(leaf, k)|)
    ensures frags == Dispersed(f, leaf, k, points).fragments
  {
    var data := Pad(leaf, k);
    forall x | x in points ensures frags[x] == Fragment(f, leaf, k, x) {
      var i :| 0 <= i < |points| && points[i] == x;
      assert codes[i] == ByteOf(points[i]);
      assert Built(f, frags[x], data, k, |data|, codes[i]);
      assert frags[x] + [] == frags[x];
    }
  }

  /** `built` is the part of the fragment at x that the blocks before `start` give. */
  ghost predicate Built(f: Field<byte>, built: seq<byte>, data: seq<byte>, k: nat, start: nat, x: byte)
    requires k > 0
  {
    start <= |data| && built + Values(f, data[start..], k, x) == Values(f, data, k, x)
  }

  /** There is a fragment for every point and no other. */
  ghost predicate Keyed(frags: map<Point, seq<byte>>, points: seq<Point>) {
    forall x :: x in frags <==> x in points
  }

  ghost predicate AllBuilt(f: Field<byte>, frags: map<Point, seq<byte>>, points: seq<Point>, codes: seq<byte>,
                           data: seq<byte>, k: nat, start: nat)
    requires k > 0 && |codes| == |points|
  {
    && Keyed(frags, points)
    && (forall i :: 0 <= i < |points| ==> Built(f, frags[points[i]], data, k, start, codes[i]))
  }

  lemma NoneBuilt(f: Field<byte>, frags: map<Point, seq<byte>>, points: seq<Point>, codes: seq<byte>, data: seq<byte>,
                  k: nat)
    requires k > 0 && |codes| == |points| && frags == map x: Point | x in points :: []
    ensures AllBuilt(f, frags, points, codes, data, k, 0)
  {
    assert data[0..] == data;
    forall i | 0 <= i < |points| ensures Built(f, frags[points[i]], data, k, 0, codes[i]) {
      assert frags[points[i]] == [];
    }
  }

  /** What follows `start` is whole blocks. */
  ghost predicate Aligned(n: nat, k: nat, start: nat)
    requires k > 0
  {
    start <= n && Whole(n - start, k)
  }

  lemma AlignedStep(n: nat, k: nat, start: nat)
    requires k > 0 && start < n && Aligned(n, k, start)
    ensures start + k <= n && Aligned(n, k, start + k)
  {
    WholeStep(n - start, k);
  }

  /** The blocks before `start` are dispersed and the rest is whole blocks. */
  ghost predicate DispersedTo(f: Field<byte>, frags: map<Point, seq<byte>>, points: seq<Point>, codes: seq<byte>,
                              data: seq<byte>, k: nat, start: nat)
    requires k > 0 && |codes| == |points|
  {
    Aligned(|data|, k, start) && AllBuilt(f, frags, points, codes, data, k, start)
  }

  /** Evaluate block after block, appending to every fragment. */
  method DisperseBlocks(t: Tables, data: seq<byte>, k: nat, points: seq<Point>, codes: seq<byte>)
    returns (frags: map<Point, seq<byte>>)
    requires t.Valid() && k > 0 && Whole(|data|, k) && |codes| == |points| && ValidPoints(points, |points|)
    ensures AllBuilt(t.f, frags, points, codes, data, k, |data|)
  {
    frags := map x: Point | x in points :: [];
    NoneBuilt(t.f, frags, points, codes, data, k);
    var start: nat := 0;
    while start < |data|
      invariant DispersedTo(t.f, frags, points, codes, data, k, start)
    {
      frags, start := DisperseBlock(t, frags, points, codes, data, k, start);
    }
  }

  method DisperseBlock(t: Tables, frags: map<Point, seq<byte>>, points: seq<Point>, codes: seq<byte>, data: seq<byte>,
                       k: nat, start: nat)
    returns (frags': map<Point, seq<byte>>, next: nat)
    requires t.Valid() && k > 0 && |codes| == |points| && ValidPoints(points, |points|)
    requires start < |data| && DispersedTo(t.f, frags, points, codes, data, k, start)
    ensures next == start + k && DispersedTo(t.f, frags', points, codes, data, k, next)
  {
    BlockAhead(t.f, frags, points, codes, data, k, start);
    next := start + k;
    frags' := AppendBlock(t, frags, points, codes, data[start..next]);
    AllBuiltStep(t.f, frags, frags', points, codes, data, k, start, next);
  }

  lemma BlockAhead(f: Field<byte>, frags: map<Point, seq<byte>>, points: seq<Point>, codes: seq<byte>,
                   data: seq<byte>, k: nat, start: nat)
    requires k > 0 && |codes| == |points| && start < |data|
    requires DispersedTo(f, frags, points, codes, data, k, start)
    ensures start + k <= |data| && Aligned(|data|, k, start + k)
    ensures Keyed(frags, points) && AllBuilt(f, frags, points, codes, data, k, start)
  {
    AlignedStep(|data|, k, start);
  }

  lemma AllBuiltStep(f: Field<byte>, frags: map<Point, seq<byte>>, frags': map<Point, seq<byte>>,
                     points: seq<Point>, codes: seq<byte>, data: seq<byte>, k: nat, start: nat, next: nat)
    requires k > 0 && |codes| == |points| && next == start + k <= |data|
    requires AllBuilt(f, frags, points, codes, data, k, start)
    requires Keyed(frags, points) && Appended(f, frags, frags', points, codes, data[start..next])
    ensures AllBuilt(f, frags', points, codes, data, k, next)
  {
    forall i | 0 <= i < |points| ensures Built(f, frags'[points[i]], data, k, next, codes[i]) {
      BuiltStep(f, frags[points[i]], data, k, start, codes[i], Eval(f, data[start..next], codes[i]));
    }
  }

  /** The value of a block at every point is appended to the fragment there. */
  ghost predicate Appended(f: Field<byte>, frags: map<Point, seq<byte>>, frags': map<Point, seq<byte>>,
                           points: seq<Point>, codes: seq<byte>, block: seq<byte>)
    requires |codes| == |points| && Keyed(frags, points)
  {
    && Keyed(frags', points)
    && forall i :: 0 <= i < |points| ==> frags'[points[i]] == frags[points[i]] + [Eval(f, block, codes[i])]
  }

  method AppendBlock(t: Tables, frags: map<Point, seq<byte>>, points: seq<Point>, codes: seq<byte>, block: seq<byte>)
    returns (frags': map<Point, seq<byte>>)
    requires t.Valid() && |codes| == |points| && ValidPoints(points, |points|)
    requires Keyed(frags, points)
    ensures Appended(t.f, frags, frags', points, codes, block)
  {
    frags' := frags;
    for i := 0 to |points|
      invariant Keyed(frags', points)
      invariant forall j :: 0 <= j < i ==> frags'[points[j]] == frags[points[j]] + [Eval(t.f, block, codes[j])]
      invariant forall j :: i <= j < |points| ==> frags'[points[j]] == frags[points[j]]
    {
      var v := EvalPoly(t, block, codes[i]);
      frags' := frags'[points[i] := frags'[points[i]] + [v]];
    }
  }

  lemma BuiltStep(f: Field<byte>, built: seq<byte>, data: seq<byte>, k: nat, start: nat, x: byte, v: byte)
    requires k > 0 && start + k <= |data| && Built(f, built, data, k, start, x)
    requires v == Eval(f, data[start..start + k], x)
    ensures Built(f, built + [v], data, k, start + k, x)
  {
    assert data[start..][..k] == data[start..start + k] && data[start..][k..] == data[start + k..];
    assert built + ([v] + Values(f, data[start + k..], k, x)) == (built + [v]) + Values(f, data[start + k..], k, x);
  }

  // -------------------------------------------------------------- reconstruction

  /** No fragment is shorter than the first. */
  predicate Level(frs: seq<seq<byte>>) {
    frs != [] && forall i :: 0 <= i < |frs| ==> |frs[i]| >= |frs[0]|
  }

  function Column(frs: seq<seq<byte>>, pos: nat): (ys: seq<byte>)
    requires forall i :: 0 <= i < |frs| ==> pos < |frs[i]|
    ensures |ys| == |frs|
  {
    seq(|frs|, i requires 0 <= i < |frs| => frs[i][pos])
  }

  ghost function DropColumns(frs: seq<seq<byte>>, pos: nat): (rest: seq<seq<byte>>)
    requires forall i :: 0 <= i < |frs| ==> pos <= |frs[i]|
    ensures |rest| == |frs| && forall i :: 0 <= i < |frs| ==> rest[i] == frs[i][pos..]
  {
    seq(|frs|, i requires 0 <= i < |frs| => frs[i][pos..])
  }

  /** One interpolated block per column. */
  ghost function Rebuild(f: Field<byte>, xs: seq<byte>, frs: seq<seq<byte>>): seq<byte>
    requires |xs| == |frs| && Level(frs)
    decreases |frs[0]|
  {
    if frs[0] == [] then []
    else Interpolate(f, xs, Column(frs, 0)) + Rebuild(f, xs, DropColumns(frs, 1))
  }

  function Take(s: seq<byte>, n: nat): seq<byte> {
    if n <= |s| then s[..n] else s
  }

  function SortedPoints(s: set<Point>): (r: seq<Point>)
    ensures NoRepeats(r) && Ascending(r) && |r| == |s| && forall x :: x in r <==> x in s
  {
    var r := Sorted(s);
    assert forall i :: 0 <= i < |r| ==> r[i] in r && r[i] in s;
    r
  }

  function FirstPoints(fragments: map<Point, seq<byte>>, k: nat): (xs: seq<Point>)
    requires k <= |fragments|
    ensures |xs| == k
    ensures forall i :: 0 <= i < |xs| ==> xs[i] in fragments
    ensures forall i, j :: 0 <= i < j < |xs| ==> xs[i] < xs[j]
  {
    KeysInOrder(fragments);
    SortedPoints(fragments.Keys)[..k]
  }

  lemma KeysInOrder(fragments: map<Point, seq<byte>>)
    ensures |SortedPoints(fragments.Keys)| == |fragments|
    ensures forall i :: 0 <= i < |SortedPoints(fragments.Keys)| ==> SortedPoints(fragments.Keys)[i] in fragments
  {
    var all := SortedPoints(fragments.Keys);
    assert |fragments.Keys| == |fragments|;
    forall i | 0 <= i < |all| ensures all[i] in fragments {
      assert all[i] in all;
    }
  }

  function FragmentsAt(fragments: map<Point, seq<byte>>, xs: seq<Point>): (frs: seq<seq<byte>>)
    requires forall i :: 0 <= i < |xs| ==> xs[i] in fragments
    ensures |frs| == |xs|
  {
    seq(|xs|, i requires 0 <= i < |xs| => fragments[xs[i]])
  }

  function Codes(xs: seq<Point>): (codes: seq<byte>)
    ensures |codes| == |xs|
  {
    seq(|xs|, i requires 0 <= i < |xs| => ByteOf(xs[i]))
  }

  lemma CodesDistinct(xs: seq<Point>)
    requires forall i, j :: 0 <= i < j < |xs| ==> xs[i] != xs[j]
    ensures NoRepeats(Codes(xs))
  {
    forall i, j | 0 <= i < j < |xs| ensures Codes(xs)[i] != Codes(xs)[j] {
      ByteOfInjective(xs[i], xs[j]);
    }
  }

  /** The result of `reconstruct`, errors included. */
  ghost function Reconstructed(f: Field<byte>, fragments: map<Point, seq<byte>>, k: nat, origLen: nat)
    : Result<seq<byte>>
  {
    if |fragments| < k then Err(ValueError)
    else if k == 0 then Err(IndexError)
    else
      var xs := FirstPoints(fragments, k);
      var frs := FragmentsAt(fragments, xs);
      if Level(frs) then Ok(Take(Rebuild(f, Codes(xs), frs), origLen)) else Err(IndexError)
  }

  method Reconstruct(t: Tables, fragments: map<Point, seq<byte>>, k: nat, origLen: nat)
    returns (r: Result<seq<byte>>)
    requires t.Valid() && IsField(t.f)
    ensures r == Reconstructed(t.f, fragments, k, origLen)
  {
    if |fragments| < k {
      return Err(ValueError);
    }
    if k == 0 {
      return Err(IndexError);
    }
    var xs := FirstPoints(fragments, k);
    CodesDistinct(xs);
    var out := RebuildBlocks(t, Codes(xs), FragmentsAt(fragments, xs));
    if out.Err? {
      return out;
    }
    r := Ok(Take(out.value, origLen));
  }

  /** `out` is what the columns before `pos` give. */
  ghost predicate Rebuilt(f: Field<byte>, xs: seq<byte>, frs: seq<seq<byte>>, pos: nat, out: seq<byte>)
    requires |xs| == |frs| > 0 && forall i :: 0 <= i < |frs| ==> pos <= |frs[i]|
  {
    Level(frs) ==> out + Rebuild(f, xs, DropColumns(frs, pos)) == Rebuild(f, xs, frs)
  }

  method RebuildBlock(t: Tables, xs: seq<byte>, frs: seq<seq<byte>>, pos: nat, out: seq<byte>) returns (out': seq<byte>)
    requires t.Valid() && IsField(t.f) && |xs| == |frs| > 0 && NoRepeats(xs)
    requires forall i :: 0 <= i < |frs| ==> pos < |frs[i]|
    requires Rebuilt(t.f, xs, frs, pos, out)
    ensures Rebuilt(t.f, xs, frs, pos + 1, out')
  {
    var block := InterpolateCoeffs(t, xs, Column(frs, pos));
    if Level(frs) {
      RebuildStep(t.f, xs, frs, pos, out);
    }
    out' := out + block.value;
  }

  /** Column after column; a fragment that ends early is an index error. */
  method RebuildBlocks(t: Tables, xs: seq<byte>, frs: seq<seq<byte>>) returns (r: Result<seq<byte>>)
    requires t.Valid() && IsField(t.f) && |xs| == |frs| > 0 && NoRepeats(xs)
    ensures r == if Level(frs) then Ok(Rebuild(t.f, xs, frs)) else Err(IndexError)
  {
    var out := [];
    var flen := |frs[0]|;
    DropNone(frs);
    for pos := 0 to flen
      invariant forall i :: 0 <= i < |frs| ==> pos <= |frs[i]|
      invariant Rebuilt(t.f, xs, frs, pos, out)
    {
      if exists i :: 0 <= i < |frs| && pos >= |frs[i]| {
        return Err(IndexError);
      }
      out := RebuildBlock(t, xs, frs, pos, out);
    }
    assert Level(frs);
    assert DropColumns(frs, flen)[0] == [];
    assert out + [] == out;
    r := Ok(out);
  }

  lemma DropNone(frs: seq<seq<byte>>)
    ensures DropColumns(frs, 0) == frs
  {
  }

  lemma NextColumn(frs: seq<seq<byte>>, pos: nat)
    requires |frs| > 0 && Level(frs) && pos < |frs[0]|
    ensures var rest := DropColumns(frs, pos);
      && Level(rest) && Column(rest, 0) == Column(frs, pos) && DropColumns(rest, 1) == DropColumns(frs, pos + 1)
  {
  }

  lemma RebuildStep(f: Field<byte>, xs: seq<byte>, frs: seq<seq<byte>>, pos: nat, out: seq<byte>)
    requires |xs| == |frs| && Level(frs) && pos < |frs[0]|
    requires out + Rebuild(f, xs, DropColumns(frs, pos)) == Rebuild(f, xs, frs)
    ensures (out + Interpolate(f, xs, Column(frs, pos))) + Rebuild(f, xs, DropColumns(frs, pos + 1))
            == Rebuild(f, xs, frs)
  {
    NextColumn(frs, pos);
    var b, s := Interpolate(f, xs, Column(frs, pos)), Rebuild(f, xs, DropColumns(frs, pos + 1));
    assert out + (b + s) == (out + b) + s;
  }
}

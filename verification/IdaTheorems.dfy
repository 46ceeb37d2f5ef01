/**
  What the dispersal codec promises: any k fragments give the leaf back, and
  exactly when fewer than k leave it undetermined.
 */
module IdaTheorems {
  import opened Arithmetic
  import opened Fields
  import opened Polynomials
  import opened GfTables
  import opened Octets
  import opened HolographicIda
  import opened Common

  /** All fragments of one dispersal have one byte per block. */
  lemma {:induction false} ValuesLength(f: Field<byte>, data: seq<byte>, k: nat, x: byte, y: byte)
    requires k > 0
    ensures |Values(f, data, k, x)| == |Values(f, data, k, y)|
    decreases |data|
  {
    if |data| >= k {
      ValuesLength(f, data[k..], k, x, y);
    }
  }

  ghost predicate AreValues(f: Field<byte>, data: seq<byte>, k: nat, xs: seq<byte>, frs: seq<seq<byte>>)
    requires k > 0
  {
    |frs| == |xs| && forall i :: 0 <= i < |xs| ==> frs[i] == Values(f, data, k, xs[i])
  }

  lemma AreLevel(f: Field<byte>, data: seq<byte>, k: nat, xs: seq<byte>, frs: seq<seq<byte>>)
    requires k > 0 && |xs| == k && AreValues(f, data, k, xs, frs)
    ensures Level(frs)
  {
    forall i | 0 <= i < |frs| ensures |frs[i]| >= |frs[0]| {
      ValuesLength(f, data, k, xs[i], xs[0]);
    }
  }

  /** Interpolating every column of k value sequences gives the data back. */
  lemma {:induction false} RebuildRecovers(f: Field<byte>, data: seq<byte>, k: nat, xs: seq<byte>, frs: seq<seq<byte>>)
    requires IsField(f) && k > 0 && Whole(|data|, k) && |xs| == k && NoRepeats(xs)
    requires AreValues(f, data, k, xs, frs) && Level(frs)
    ensures Rebuild(f, xs, frs) == data
    decreases |data|
  {
    assert frs[0] == Values(f, data, k, xs[0]);
    if |data| < k {
      assert data == [];
    } else {
      FirstColumn(f, data, k, xs, frs);
      InterpolateRecovers(f, data[..k], xs, Column(frs, 0));
      AreLevel(f, data[k..], k, xs, DropColumns(frs, 1));
      RebuildRecovers(f, data[k..], k, xs, DropColumns(frs, 1));
      assert data == data[..k] + data[k..];
    }
  }

  /** The first column holds the values of the first block, the others those of the rest. */
  lemma FirstColumn(f: Field<byte>, data: seq<byte>, k: nat, xs: seq<byte>, frs: seq<seq<byte>>)
    requires 0 < k <= |data| && |xs| == k && AreValues(f, data, k, xs, frs)
    ensures forall i :: 0 <= i < |frs| ==> |frs[i]| > 0
    ensures forall i :: 0 <= i < |xs| ==> Column(frs, 0)[i] == Eval(f, data[..k], xs[i])
    ensures AreValues(f, data[k..], k, xs, DropColumns(frs, 1))
  {
    forall i | 0 <= i < |xs|
      ensures |frs[i]| > 0 && frs[i][0] == Eval(f, data[..k], xs[i]) && frs[i][1..] == Values(f, data[k..], k, xs[i])
    {
      assert frs[i] == Values(f, data, k, xs[i]);
    }
  }

  /** Whatever the fragments hold, the rebuilt data takes their values: k bytes per column. */
  lemma {:induction false} RebuildValues(f: Field<byte>, xs: seq<byte>, frs: seq<seq<byte>>, k: nat, i: nat)
    requires IsField(f) && |xs| == |frs| == k && NoRepeats(xs) && Level(frs) && i < k
    ensures |Rebuild(f, xs, frs)| == Repeated(|frs[0]|, k)
    ensures Values(f, Rebuild(f, xs, frs), k, xs[i]) == frs[i][..|frs[0]|]
    decreases |frs[0]|
  {
    if frs[0] != [] {
      RebuildValues(f, xs, DropColumns(frs, 1), k, i);
      RebuildValuesStep(f, xs, frs, k, i);
    }
  }

  lemma RebuildValuesStep(f: Field<byte>, xs: seq<byte>, frs: seq<seq<byte>>, k: nat, i: nat)
    requires IsField(f) && |xs| == |frs| == k && NoRepeats(xs) && Level(frs) && i < k && frs[0] != []
    requires var tails := DropColumns(frs, 1);
      && Level(tails) && |Rebuild(f, xs, tails)| == Repeated(|tails[0]|, k)
      && Values(f, Rebuild(f, xs, tails), k, xs[i]) == tails[i][..|tails[0]|]
    ensures |Rebuild(f, xs, frs)| == Repeated(|frs[0]|, k)
    ensures Values(f, Rebuild(f, xs, frs), k, xs[i]) == frs[i][..|frs[0]|]
  {
    var block, tails := Interpolate(f, xs, Column(frs, 0)), DropColumns(frs, 1);
    EvalLagrange(f, xs, Column(frs, 0), k, i);
    BlockValues(f, block, Rebuild(f, xs, tails), k, xs[i]);
    FirstOfFragment(frs, i);
  }

  lemma BlockValues(f: Field<byte>, block: seq<byte>, rest: seq<byte>, k: nat, x: byte)
    requires |block| == k > 0
    ensures Values(f, block + rest, k, x) == [Eval(f, block, x)] + Values(f, rest, k, x)
  {
    var data := block + rest;
    assert data[..k] == block && data[k..] == rest;
  }

  lemma FirstOfFragment(frs: seq<seq<byte>>, i: nat)
    requires i < |frs| && Level(frs) && frs[0] != []
    ensures var tails := DropColumns(frs, 1);
      frs[i][..|frs[0]|] == [frs[i][0]] + tails[i][..|tails[0]|]
  {
  }

  /** Any k or more of the fragments a dispersal stored reconstruct the leaf. */
  lemma RoundTrip(f: Field<byte>, leaf: seq<byte>, k: nat, points: seq<Point>, kept: map<Point, seq<byte>>)
    requires IsField(f) && 1 <= k
    requires |kept| >= k
    requires forall x :: x in kept ==> x in points && kept[x] == Fragment(f, leaf, k, x)
    ensures Reconstructed(f, kept, k, |leaf|) == Ok(leaf)
  {
    var xs := FirstPoints(kept, k);
    var frs := FragmentsAt(kept, xs);
    var codes, data := Codes(xs), Pad(leaf, k);
    CodesDistinct(xs);
    forall i | 0 <= i < |xs| ensures frs[i] == Values(f, data, k, codes[i]) {
      assert xs[i] in kept;
    }
    AreLevel(f, data, k, codes, frs);
    RebuildRecovers(f, data, k, codes, frs);
    assert data[..|leaf|] == leaf;
  }

  /** The codec as it runs: tables, dispersal at any valid points, loss of fragments, reconstruction. */
  method DisperseAndReconstruct(leaf: seq<byte>, k: nat, n: nat, points: seq<Point>, lost: set<Point>)
    returns (r: Result<seq<byte>>)
    requires 1 <= k <= n <= 255 && ValidPoints(points, n)
    ensures |(set x | x in points) - lost| >= k ==> r == Ok(leaf)
    ensures |(set x | x in points) - lost| < k ==> r == Err(ValueError)
  {
    var t := new Tables();
    var d := Disperse(t, leaf, k, n, Some(points));
    var kept := d.value.fragments - lost;
    assert kept.Keys == (set x | x in points) - lost;
    assert |kept| == |kept.Keys|;
    r := Reconstruct(t, kept, k, |leaf|);
    if |kept| >= k {
      RoundTrip(t.f, leaf, k, points, kept);
    }
  }

  // ------------------------------------------------- what fewer fragments reveal

  ghost predicate SameValues(f: Field<byte>, a: seq<byte>, b: seq<byte>, k: nat, xs: seq<byte>)
    requires k > 0
  {
    forall i :: 0 <= i < |xs| ==> Values(f, Pad(a, k), k, xs[i]) == Values(f, Pad(b, k), k, xs[i])
  }

  /** Another leaf of the same length has the same fragments at these points. */
  ghost predicate Undetermined(f: Field<byte>, leaf: seq<byte>, k: nat, xs: seq<byte>)
    requires k > 0
  {
    exists other: seq<byte> :: |other| == |leaf| && other != leaf && SameValues(f, leaf, other, k, xs)
  }

  lemma {:induction false} EvalAppendZeros<T(!new)>(f: Field<T>, p: seq<T>, n: nat, x: T)
    requires IsField(f)
    ensures Eval(f, p + Zeros(f, n), x) == Eval(f, p, x)
    decreases n
  {
    if n == 0 {
      assert p + Zeros(f, 0) == p;
    } else {
      assert p + Zeros(f, n) == (p + Zeros(f, n - 1)) + [f.zero];
      EvalAppendZero(f, p + Zeros(f, n - 1), x);
      EvalAppendZeros(f, p, n - 1, x);
    }
  }

  /** The polynomial that vanishes at all of xs has leading coefficient one. */
  lemma {:induction false} NumeratorLeads<T(!new)>(f: Field<T>, xs: seq<T>, n: nat)
    requires IsField(f) && n <= |xs|
    ensures Numerator(f, xs, -1, n)[n] == f.one
    decreases n
  {
    if n > 0 {
      NumeratorLeads(f, xs, n - 1);
      var p := Numerator(f, xs, -1, n - 1);
      assert MulLinear(f, p, xs[n - 1])[n] == f.add(f.zero, p[n - 1]);
      assert LawsAt(f, f.one, f.zero, f.zero);
      assert LawsAt(f, f.zero, f.one, f.zero);
    }
  }

  lemma {:induction false} ValuesDetermine(f: Field<byte>, a: seq<byte>, b: seq<byte>, k: nat, xs: seq<byte>)
    requires IsField(f) && k > 0 && |a| == |b| && Whole(|a|, k) && |xs| == k && NoRepeats(xs)
    requires forall i :: 0 <= i < |xs| ==> Values(f, a, k, xs[i]) == Values(f, b, k, xs[i])
    ensures a == b
    decreases |a|
  {
    if |a| < k {
      assert a == [] && b == [];
    } else {
      forall i | 0 <= i < |xs|
        ensures Eval(f, a[..k], xs[i]) == Eval(f, b[..k], xs[i])
        ensures Values(f, a[k..], k, xs[i]) == Values(f, b[k..], k, xs[i])
      {
        var va, vb := Values(f, a, k, xs[i]), Values(f, b, k, xs[i]);
        assert va[0] == vb[0] && va[1..] == vb[1..];
      }
      PointsDetermine(f, a[..k], b[..k], xs);
      ValuesDetermine(f, a[k..], b[k..], k, xs);
      assert a == a[..k] + a[k..] && b == b[..k] + b[k..];
    }
  }

  lemma PadShort(leaf: seq<byte>, k: nat, zeros: seq<byte>)
    requires 0 < |leaf| < k && zeros == seq(k - |leaf|, _ => 0 as byte)
    ensures Pad(leaf, k) == leaf + zeros
  {
    SmallMod(|leaf|, k);
    SmallMod(k - |leaf|, k);
  }

  /** A leaf shorter than a block is the whole of its one polynomial. */
  lemma ShortLeafValues(f: Field<byte>, leaf: seq<byte>, k: nat, x: byte)
    requires IsField(f) && f.zero == 0 && 0 < |leaf| < k
    ensures |Pad(leaf, k)| == k
    ensures Values(f, Pad(leaf, k), k, x) == [Eval(f, leaf, x)]
  {
    var data := Pad(leaf, k);
    PadShort(leaf, k, Zeros(f, k - |leaf|));
    assert data[..k] == data && data[k..] == [];
    EvalAppendZeros(f, leaf, k - |leaf|, x);
  }

  lemma EnoughDetermine(f: Field<byte>, leaf: seq<byte>, other: seq<byte>, k: nat, xs: seq<byte>)
    requires IsField(f) && f.zero == 0 && k > 0 && NoRepeats(xs)
    requires |other| == |leaf| && SameValues(f, leaf, other, k, xs)
    requires |xs| >= k || |xs| >= |leaf|
    ensures other == leaf
  {
    if |leaf| == 0 {
    } else if |leaf| < k {
      var first := xs[..|leaf|];
      forall i | 0 <= i < |first| ensures Eval(f, leaf, first[i]) == Eval(f, other, first[i]) {
        assert xs[i] == first[i];
        ShortLeafValues(f, leaf, k, xs[i]);
        ShortLeafValues(f, other, k, xs[i]);
      }
      PointsDetermine(f, leaf, other, first);
    } else {
      var a, b := Pad(leaf, k), Pad(other, k);
      ValuesDetermine(f, a, b, k, xs[..k]);
      assert leaf == a[..|leaf|] && other == b[..|leaf|];
    }
  }

  /** A polynomial that vanishes at xs, added to the first block, changes no fragment at xs. */
  lemma AddVanishing(f: Field<byte>, leaf: seq<byte>, k: nat, xs: seq<byte>, v: seq<byte>) returns (other: seq<byte>)
    requires IsField(f) && f.zero == 0 && k > 0
    requires 0 < |v| <= k && |v| <= |leaf| && Vanishes(f, v, xs) && v[|v| - 1] != f.zero
    ensures |other| == |leaf| && other != leaf && SameValues(f, leaf, other, k, xs)
  {
    other := AddPoly(f, leaf, v + Zeros(f, |leaf| - |v|));
    var a, b := Pad(leaf, k), Pad(other, k);
    var m := |v| - 1;
    assert other[m] == f.add(leaf[m], v[m]);
    AddChanges(f, leaf[m], v[m]);
    PaddedChange(f, leaf, other, k, v);
    forall i | 0 <= i < |xs| ensures Values(f, a, k, xs[i]) == Values(f, b, k, xs[i]) {
      EvalAddVanishing(f, a[..k], v, k, xs[i]);
    }
  }

  lemma EvalAddVanishing(f: Field<byte>, block: seq<byte>, v: seq<byte>, k: nat, x: byte)
    requires IsField(f) && |block| == k && 0 < |v| <= k && Eval(f, v, x) == f.zero
    ensures Eval(f, AddPoly(f, block, v + Zeros(f, k - |v|)), x) == Eval(f, block, x)
  {
    EvalAdd(f, block, v + Zeros(f, k - |v|), x);
    EvalAppendZeros(f, v, k - |v|, x);
    assert LawsAt(f, Eval(f, block, x), f.zero, f.zero);
  }

  lemma PadSameLength(a: seq<byte>, b: seq<byte>, k: nat)
    requires k > 0 && |a| == |b|
    ensures |Pad(a, k)| == |Pad(b, k)|
    ensures a != [] ==> |Pad(a, k)| >= k
  {
  }

  lemma PadAt(leaf: seq<byte>, k: nat, i: nat)
    requires k > 0 && i < |Pad(leaf, k)|
    ensures Pad(leaf, k)[i] == if i < |leaf| then leaf[i] else 0
  {
  }

  lemma PaddedAt(f: Field<byte>, leaf: seq<byte>, other: seq<byte>, k: nat, v: seq<byte>, i: nat)
    requires IsField(f) && f.zero == 0 && k > 0 && |v| <= |leaf|
    requires other == AddPoly(f, leaf, v + Zeros(f, |leaf| - |v|)) && i < |Pad(leaf, k)| == |Pad(other, k)|
    ensures Pad(other, k)[i] == f.add(Pad(leaf, k)[i], if i < |v| then v[i] else f.zero)
    ensures i >= |v| ==> Pad(other, k)[i] == Pad(leaf, k)[i]
  {
    PadAt(leaf, k, i);
    PadAt(other, k, i);
    assert LawsAt(f, Pad(leaf, k)[i], f.zero, f.zero);
  }

  lemma PaddedChange(f: Field<byte>, leaf: seq<byte>, other: seq<byte>, k: nat, v: seq<byte>)
    requires IsField(f) && f.zero == 0 && k > 0 && 0 < |v| <= k && |v| <= |leaf|
    requires other == AddPoly(f, leaf, v + Zeros(f, |leaf| - |v|))
    ensures |Pad(leaf, k)| == |Pad(other, k)| >= k
    ensures Pad(other, k)[..k] == AddPoly(f, Pad(leaf, k)[..k], v + Zeros(f, k - |v|))
    ensures Pad(other, k)[k..] == Pad(leaf, k)[k..]
  {
    var a, b := Pad(leaf, k), Pad(other, k);
    PadSameLength(leaf, other, k);
    forall i | 0 <= i < |a|
      ensures b[i] == f.add(a[i], if i < |v| then v[i] else f.zero) && (i >= |v| ==> b[i] == a[i])
    {
      PaddedAt(f, leaf, other, k, v, i);
    }
  }

  /**
    Fragments at distinct points xs leave the leaf undetermined exactly when
    there are fewer of them than both the threshold and the leaf's length.
    Below k they never determine a leaf of k bytes or more; a shorter leaf is
    already determined by as many fragments as it has bytes.
   */
  lemma FewerThanK(f: Field<byte>, leaf: seq<byte>, k: nat, xs: seq<byte>)
    requires IsField(f) && f.zero == 0 && k > 0 && NoRepeats(xs)
    ensures Undetermined(f, leaf, k, xs) <==> |xs| < k && |xs| < |leaf|
  {
    if |xs| < k && |xs| < |leaf| {
      var v := Numerator(f, xs, -1, |xs|);
      NumeratorLeads(f, xs, |xs|);
      forall i | 0 <= i < |xs| ensures Eval(f, v, xs[i]) == f.zero {
        EvalNumerator(f, xs, -1, |xs|, xs[i]);
        ProductZero(f, xs, -1, |xs|, xs[i]);
      }
      var other := AddVanishing(f, leaf, k, xs, v);
    } else {
      forall other: seq<byte> | |other| == |leaf| && SameValues(f, leaf, other, k, xs) ensures other == leaf {
        EnoughDetermine(f, leaf, other, k, xs);
      }
    }
  }
}

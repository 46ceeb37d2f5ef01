/** Exactly when a read gives the leaf back, whatever the nodes answered. */
module FetchExact {
  import opened Arithmetic
  import opened Fields
  import opened Octets
  import opened HolographicIda
  import opened IdaTheorems
  import opened Common
  import opened Sorting
  import opened Combinations
  import opened MeshData
  import opened LeafPropagation
  import opened FetchTheorems
  import opened FetchLimits

  /** No fragment of a selection is shorter than its first. */
  ghost predicate LevelAt(avail: map<Point, Bytes>, c: seq<Point>) {
    forall j :: 0 <= j < |c| ==> c[j] in avail && c[0] in avail && |avail[c[j]]| >= |avail[c[0]]|
  }

  /** A selection decodes to some bytes exactly when it is level. */
  lemma DecodesIffLevel(f: Field<byte>, avail: map<Point, Bytes>, c: seq<Point>, k: nat, origLen: nat)
    requires k >= 1 && |c| == k && Ascending(c) && forall j :: 0 <= j < |c| ==> c[j] in avail
    ensures Reconstructed(f, Only(avail, c), k, origLen).Ok? <==> LevelAt(avail, c)
  {
    FirstPointsOf(avail, c);
    ReconstructsIff(f, Only(avail, c), c, k, origLen);
    LevelFragments(avail, c);
  }

  lemma ReconstructsIff(f: Field<byte>, fragments: map<Point, Bytes>, c: seq<Point>, k: nat, origLen: nat)
    requires 1 <= k <= |fragments| && FirstPoints(fragments, k) == c
    ensures Reconstructed(f, fragments, k, origLen).Ok? <==> Level(FragmentsAt(fragments, c))
  {
  }

  lemma LevelFragments(avail: map<Point, Bytes>, c: seq<Point>)
    requires c != [] && forall j :: 0 <= j < |c| ==> c[j] in avail
    ensures Level(FragmentsAt(Only(avail, c), c)) <==> LevelAt(avail, c)
  {
    var frs := FragmentsAt(Only(avail, c), c);
    assert forall j :: 0 <= j < |c| ==> frs[j] == avail[c[j]];
  }

  /**
    The selected fragments, cut to the length of the first, are the values of `data`: what a
    dispersal of `data` stores, k bytes to a column.
   */
  ghost predicate Carries(f: Field<byte>, avail: map<Point, Bytes>, c: seq<Point>, k: nat, data: Bytes)
    requires k > 0 && c != [] && LevelAt(avail, c)
  {
    var len := |avail[c[0]]|;
    |data| == k * len && forall i :: 0 <= i < |c| ==> CarriesAt(f, avail[c[i]], len, c[i], k, data)
  }

  ghost predicate CarriesAt(f: Field<byte>, fragment: Bytes, len: nat, x: Point, k: nat, data: Bytes)
    requires k > 0 && len <= |fragment|
  {
    fragment[..len] == Values(f, data, k, ByteOf(x))
  }

  /** The answers to one selection hold the leaf: they are level and carry data that starts with it. */
  ghost predicate Holds(f: Field<byte>, avail: map<Point, Bytes>, c: seq<Point>, k: nat, origLen: nat, leaf: Bytes)
    requires k > 0 && c != []
  {
    LevelAt(avail, c) && exists data :: Carries(f, avail, c, k, data) && Take(data, origLen) == leaf
  }

  /** A level selection rebuilds the one data it carries. */
  lemma RebuildCarries(f: Field<byte>, avail: map<Point, Bytes>, c: seq<Point>, k: nat)
    requires IsField(f) && k >= 1 && |c| == k && Ascending(c) && LevelAt(avail, c)
    requires |Only(avail, c)| == k && Level(FragmentsAt(Only(avail, c), c)) && NoRepeats(Codes(c))
    ensures Carries(f, avail, c, k, Rebuild(f, Codes(c), FragmentsAt(Only(avail, c), c)))
  {
    var frs := FragmentsAt(Only(avail, c), c);
    var data := Rebuild(f, Codes(c), frs);
    var len := |avail[c[0]]|;
    assert frs[0] == avail[c[0]];
    forall i | 0 <= i < k ensures |data| == k * len && CarriesAt(f, avail[c[i]], len, c[i], k, data) {
      RebuildValues(f, Codes(c), frs, k, i);
      RepeatedIsProduct(len, k);
      assert frs[i] == avail[c[i]];
    }
    assert 0 <= 0 < k;
  }

  lemma CarriesOne(f: Field<byte>, avail: map<Point, Bytes>, c: seq<Point>, k: nat, a: Bytes, b: Bytes)
    requires IsField(f) && k >= 1 && |c| == k && LevelAt(avail, c) && NoRepeats(Codes(c))
    requires Carries(f, avail, c, k, a) && Carries(f, avail, c, k, b)
    ensures a == b
  {
    var len := |avail[c[0]]|;
    MultipleMod(len, k);
    MultipleIsWhole(|a|, k);
    forall i | 0 <= i < k ensures Values(f, a, k, Codes(c)[i]) == Values(f, b, k, Codes(c)[i]) {
      assert CarriesAt(f, avail[c[i]], len, c[i], k, a) && CarriesAt(f, avail[c[i]], len, c[i], k, b);
    }
    ValuesDetermine(f, a, b, k, Codes(c));
  }

  lemma AscendingCodes(c: seq<Point>)
    requires Ascending(c)
    ensures NoRepeats(Codes(c))
  {
    CodesDistinct(c);
  }

  lemma ReconstructsAs(f: Field<byte>, fragments: map<Point, Bytes>, c: seq<Point>, k: nat, origLen: nat)
    requires 1 <= k <= |fragments| && FirstPoints(fragments, k) == c && Level(FragmentsAt(fragments, c))
    ensures Reconstructed(f, fragments, k, origLen)
            == Ok(Take(Rebuild(f, Codes(c), FragmentsAt(fragments, c)), origLen))
  {
  }

  /** A selection decodes to the leaf exactly when its answers hold the leaf, genuine or not. */
  lemma DecodesToLeafIff(f: Field<byte>, avail: map<Point, Bytes>, c: seq<Point>, k: nat, origLen: nat, leaf: Bytes)
    requires IsField(f) && k >= 1 && |c| == k && Ascending(c) && forall j :: 0 <= j < |c| ==> c[j] in avail
    ensures Reconstructed(f, Only(avail, c), k, origLen) == Ok(leaf) <==> Holds(f, avail, c, k, origLen, leaf)
  {
    DecodesIffLevel(f, avail, c, k, origLen);
    if LevelAt(avail, c) {
      FirstPointsOf(avail, c);
      LevelFragments(avail, c);
      AscendingCodes(c);
      ReconstructsAs(f, Only(avail, c), c, k, origLen);
      RebuildCarries(f, avail, c, k);
      var data := Rebuild(f, Codes(c), FragmentsAt(Only(avail, c), c));
      forall other | Carries(f, avail, c, k, other) ensures other == data {
        CarriesOne(f, avail, c, k, other, data);
      }
    }
  }

  lemma {:induction false} AllAscend(xs: seq<Point>, k: nat, i: nat)
    requires Ascending(xs) && i < |All(xs, k)|
    ensures Ascending(All(xs, k)[i])
    decreases |xs|
  {
    if k > 0 {
      var m: nat := k - 1;
      AllSplits(xs, k);
      if i < |All(xs[1..], m)| {
        AllAscend(xs[1..], m, i);
        FirstAscends(xs, m, i);
      } else {
        var j: nat := i - |All(xs[1..], m)|;
        AllAscend(xs[1..], k, j);
        AllBeyond(xs, k, j);
      }
    }
  }

  lemma FirstAscends(xs: seq<Point>, m: nat, i: nat)
    requires xs != [] && Ascending(xs) && i < |All(xs[1..], m)| && Ascending(All(xs[1..], m)[i])
    ensures i < |All(xs, m + 1)| && Ascending(All(xs, m + 1)[i])
  {
    AllAt(xs, m + 1, i);
    AllSelect(xs[1..], m, i);
    PrependLower(xs, All(xs[1..], m)[i]);
  }

  lemma PrependLower(xs: seq<Point>, c: seq<Point>)
    requires xs != [] && Ascending(xs) && Ascending(c) && forall i :: 0 <= i < |c| ==> c[i] in xs[1..]
    ensures Ascending([xs[0]] + c)
  {
    forall i | 0 <= i < |c| ensures xs[0] < c[i] {
      var j :| 0 <= j < |xs[1..]| && xs[1..][j] == c[i];
      assert xs[j + 1] == c[i];
    }
  }

  /** Selection j gives the leaf and every selection tried before it decodes. */
  ghost predicate FindsAt(decode: Decoder, avail: map<Point, Bytes>, cs: seq<seq<Point>>, limit: nat, leaf: Bytes,
                          j: nat)
  {
    && j < |cs| && j < limit && decode(Only(avail, cs[j])) == Ok(leaf)
    && forall i :: 0 <= i < j ==> decode(Only(avail, cs[i])).Ok?
  }

  lemma {:induction false} TryCameFrom(decode: Decoder, h: Hash, root: string, avail: map<Point, Bytes>,
                                       cs: seq<seq<Point>>, limit: nat, leaf: Bytes) returns (j: nat)
    requires Try(decode, h, root, avail, cs, limit) == Ok(leaf)
    ensures FindsAt(decode, avail, cs, limit, leaf, j)
    decreases |cs|
  {
    var rec := decode(Only(avail, cs[0]));
    if rec.Err? || h(rec.value) == root {
      j := 0;
    } else {
      var k := TryCameFrom(decode, h, root, avail, cs[1..], limit - 1, leaf);
      j := k + 1;
      forall i | 0 <= i < j ensures decode(Only(avail, cs[i])).Ok? {
        if i > 0 {
          assert cs[1..][i - 1] == cs[i];
        }
      }
    }
  }

  /** Selection j holds the leaf, and no selection tried before it has a fragment shorter than its first. */
  ghost predicate FindableAt(f: Field<byte>, m: Manifest, avail: map<Point, Bytes>, cs: seq<seq<Point>>, limit: nat,
                             leaf: Bytes, j: nat)
    requires m.k >= 1
  {
    && j < |cs| && j < limit && cs[j] != [] && Holds(f, avail, cs[j], m.k, m.origLen, leaf)
    && forall i :: 0 <= i < j ==> LevelAt(avail, cs[i])
  }

  /** Some selection within the limit holds the leaf before an uneven one is met. */
  ghost predicate Findable(f: Field<byte>, m: Manifest, avail: map<Point, Bytes>, limit: nat, leaf: Bytes)
    requires m.k >= 1
  {
    exists j: nat :: FindableAt(f, m, avail, All(SortedPoints(avail.Keys), m.k), limit, leaf, j)
  }

  lemma SelectionFacts(avail: map<Point, Bytes>, k: nat, i: nat)
    requires k >= 1 && i < |All(SortedPoints(avail.Keys), k)|
    ensures var c := All(SortedPoints(avail.Keys), k)[i];
      |c| == k && c != [] && Ascending(c) && forall j :: 0 <= j < |c| ==> c[j] in avail
  {
    var xs := SortedPoints(avail.Keys);
    AllAscend(xs, k, i);
    AllSelect(xs, k, i);
  }

  lemma SelectionDecodes(f: Field<byte>, m: Manifest, avail: map<Point, Bytes>, i: nat, leaf: Bytes)
    requires IsField(f) && m.k >= 1 && i < |All(SortedPoints(avail.Keys), m.k)|
    ensures var c := All(SortedPoints(avail.Keys), m.k)[i];
      && c != []
      && (DecoderOf(f, m)(Only(avail, c)).Ok? <==> LevelAt(avail, c))
      && (DecoderOf(f, m)(Only(avail, c)) == Ok(leaf) <==> Holds(f, avail, c, m.k, m.origLen, leaf))
  {
    SelectionFacts(avail, m.k, i);
    var c := All(SortedPoints(avail.Keys), m.k)[i];
    DecodesIffLevel(f, avail, c, m.k, m.origLen);
    DecodesToLeafIff(f, avail, c, m.k, m.origLen, leaf);
  }

  lemma FindsIffFindable(f: Field<byte>, m: Manifest, avail: map<Point, Bytes>, limit: nat, leaf: Bytes, j: nat)
    requires IsField(f) && m.k >= 1
    ensures var cs := All(SortedPoints(avail.Keys), m.k);
      FindsAt(DecoderOf(f, m), avail, cs, limit, leaf, j) <==> FindableAt(f, m, avail, cs, limit, leaf, j)
  {
    var cs := All(SortedPoints(avail.Keys), m.k);
    forall i | 0 <= i < |cs| ensures DecoderOf(f, m)(Only(avail, cs[i])).Ok? <==> LevelAt(avail, cs[i]) {
      SelectionDecodes(f, m, avail, i, leaf);
    }
    if j < |cs| {
      SelectionDecodes(f, m, avail, j, leaf);
    }
  }

  lemma FoundIsFindable(f: Field<byte>, h: Hash, m: Manifest, avail: map<Point, Bytes>, limit: nat, leaf: Bytes)
    requires IsField(f) && m.k >= 1
    requires Try(DecoderOf(f, m), h, m.root, avail, All(SortedPoints(avail.Keys), m.k), limit) == Ok(leaf)
    ensures Findable(f, m, avail, limit, leaf)
  {
    var j := TryCameFrom(DecoderOf(f, m), h, m.root, avail, All(SortedPoints(avail.Keys), m.k), limit, leaf);
    FindsIffFindable(f, m, avail, limit, leaf, j);
  }

  lemma FindableIsFound(f: Field<byte>, h: Hash, m: Manifest, avail: map<Point, Bytes>, limit: nat, leaf: Bytes)
    requires IsField(f) && m.k >= 1 && NoCollisionIn(f, h, m, avail, leaf) && m.root == h(leaf)
    requires Findable(f, m, avail, limit, leaf)
    ensures Try(DecoderOf(f, m), h, m.root, avail, All(SortedPoints(avail.Keys), m.k), limit) == Ok(leaf)
  {
    var cs := All(SortedPoints(avail.Keys), m.k);
    var j: nat :| FindableAt(f, m, avail, cs, limit, leaf, j);
    FindsIffFindable(f, m, avail, limit, leaf, j);
    TryFinds(DecoderOf(f, m), h, leaf, avail, cs, limit, j);
  }

  /**
    The leaf comes back exactly when k fragments answer and some k of them, in the order of the
    search and within its limit, carry data that starts with the leaf before an uneven selection
    is met.
   */
  lemma FetchSucceedsIff(f: Field<byte>, h: Hash, m: Manifest, get: Reader, reachable: Option<set<string>>, limit: nat,
                         leaf: Bytes)
    requires IsField(f) && NoCollisionIn(f, h, m, Gathered(get, m, reachable), leaf) && m.root == h(leaf) && m.k >= 1
    ensures Fetched(f, h, m, get, reachable, limit) == Ok(leaf) <==>
            |Gathered(get, m, reachable)| >= m.k && Findable(f, m, Gathered(get, m, reachable), limit, leaf)
  {
    var avail := Gathered(get, m, reachable);
    if Fetched(f, h, m, get, reachable, limit) == Ok(leaf) {
      FoundIsFindable(f, h, m, avail, limit, leaf);
    }
    if Findable(f, m, avail, limit, leaf) {
      FindableIsFound(f, h, m, avail, limit, leaf);
    }
  }

  /** A genuine selection holds its leaf, whatever padding the dispersal added. */
  lemma GenuineHolds(f: Field<byte>, avail: map<Point, Bytes>, c: seq<Point>, k: nat, leaf: Bytes)
    requires IsField(f) && k >= 1 && |c| == k && Ascending(c)
    requires forall i :: 0 <= i < |c| ==> Genuine(f, leaf, k, avail, c[i])
    ensures Holds(f, avail, c, k, |leaf|, leaf)
  {
    GenuineDecodes(f, leaf, k, avail, c);
    DecodesToLeafIff(f, avail, c, k, |leaf|, leaf);
  }
}

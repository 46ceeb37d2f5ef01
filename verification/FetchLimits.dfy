/** Where the read path stops: how much seizure is too much, and which lies it does not route around. */
module FetchLimits {
  import opened Arithmetic
  import opened Fields
  import opened Polynomials
  import opened Octets
  import opened HolographicIda
  import opened IdaTheorems
  import opened FragmentPlacement
  import opened Combinations
  import opened MeshData
  import opened LeafPropagation
  import opened FetchTheorems
  import opened Common
  import opened Sorting

  // ------------------------------------------------------ the bound is the bound

  /** The nodes of the first `count` groups. */
  ghost function FirstGroups(groups: seq<set<string>>, count: nat): set<string>
    requires count <= |groups|
  {
    if count == 0 then {} else FirstGroups(groups, count - 1) + groups[count - 1]
  }

  lemma {:induction false} FirstGroupsSize(groups: seq<set<string>>, size: nat, count: nat)
    requires DisjointGroups(groups, size) && count <= |groups|
    ensures |FirstGroups(groups, count)| == count * size
    ensures forall i :: 0 <= i < count ==> groups[i] <= FirstGroups(groups, count)
    ensures forall i :: count <= i < |groups| ==> groups[i] !! FirstGroups(groups, count)
    decreases count
  {
    if count > 0 {
      FirstGroupsSize(groups, size, count - 1);
      DisjointSize(FirstGroups(groups, count - 1), groups[count - 1]);
      MulSucc(count - 1, size);
    }
  }

  /** The integers lo to hi. */
  ghost function Range(lo: int, hi: int): (s: set<int>)
    requires lo <= hi + 1
    ensures |s| == hi + 1 - lo && forall i :: i in s <==> lo <= i <= hi
    decreases hi + 1 - lo
  {
    if lo == hi + 1 then {} else Range(lo, hi - 1) + {hi}
  }

  lemma PointsInRange(avail: map<Point, Bytes>, lo: int, hi: int)
    requires lo <= hi + 1 && forall x :: x in avail ==> lo <= x <= hi
    ensures |avail| <= hi + 1 - lo
  {
    var keys: set<int> := avail.Keys;
    assert keys <= Range(lo, hi);
    assert Range(lo, hi) == keys + (Range(lo, hi) - keys);
    assert |avail| == |keys|;
  }

  lemma SeizedHasNoCopy(m: Manifest, nodes: seq<string>, reach: set<string>, seized: set<string>, x: Point)
    requires m.n <= 255 && IsPlacement(m.fragmentNodes, nodes, DefaultPoints(m.n), m.replicas)
    requires reach !! seized && 1 <= x <= m.n
    requires SetOf(CopiesOf(nodes, m.n, m.replicas, x - 1)) <= seized
    ensures !HasReachableCopy(m, Some(reach), x)
  {
    var copies := CopiesOf(nodes, m.n, m.replicas, x - 1);
    assert DefaultPoints(m.n)[x - 1] == x;
    assert m.fragmentNodes[x] == copies;
    forall node | node in copies ensures !Reachable(Some(reach), node) {
      assert node in SetOf(copies);
    }
  }

  /** The leaf cannot be read from any set of nodes that avoids the seized ones. */
  ghost predicate UnavailableWithout(f: Field<byte>, h: Hash, slots: map<Slot, Bytes>, m: Manifest,
                                     seized: set<string>, limit: nat)
  {
    forall reach: set<string> :: reach !! seized ==>
      Fetched(f, h, m, StoreReader(slots), Some(reach), limit) == Err(LeafUnavailable)
  }

  /** The nodes of the first `count` fragments. */
  lemma ToSeize(nodes: seq<string>, n: nat, replicas: nat, count: nat) returns (seized: set<string>)
    requires NoRepeats(nodes) && n * replicas <= |nodes| && count <= n
    ensures DisjointGroups(Groups(nodes, n, replicas), replicas)
    ensures seized == FirstGroups(Groups(nodes, n, replicas), count) && |seized| == count * replicas
  {
    GroupsDisjoint(nodes, n, replicas);
    seized := FirstGroups(Groups(nodes, n, replicas), count);
    FirstGroupsSize(Groups(nodes, n, replicas), replicas, count);
  }

  /** Some set of (n - k + 1) * R nodes, once seized, makes the leaf unavailable. */
  lemma SeizureBoundIsTight(f: Field<byte>, h: Hash, slots: map<Slot, Bytes>, m: Manifest, leaf: Bytes, p: Placement,
                            nodes: seq<string>, tier: string, limit: nat)
    returns (seized: set<string>)
    requires NoRepeats(nodes) && IsManifest(m, h, leaf, p, nodes, tier) && Stored(f, slots, m, leaf)
    ensures |seized| == (p.m + 1) * p.shardReplicas
    ensures UnavailableWithout(f, h, slots, m, seized, limit)
  {
    ManifestFits(h, m, leaf, p, nodes, tier);
    seized := Seizure(f, h, slots, m, leaf, nodes, p.m + 1, limit);
  }

  lemma Seizure(f: Field<byte>, h: Hash, slots: map<Slot, Bytes>, m: Manifest, leaf: Bytes, nodes: seq<string>,
                count: nat, limit: nat)
    returns (seized: set<string>)
    requires NoRepeats(nodes) && Stored(f, slots, m, leaf) && m.n * m.replicas <= |nodes|
    requires m.n <= 255 && IsPlacement(m.fragmentNodes, nodes, DefaultPoints(m.n), m.replicas)
    requires count <= m.n < m.k + count
    ensures |seized| == count * m.replicas && UnavailableWithout(f, h, slots, m, seized, limit)
  {
    seized := ToSeize(nodes, m.n, m.replicas, count);
    SeizedMeansUnavailable(f, h, slots, m, leaf, nodes, count, limit);
  }

  lemma ManifestFits(h: Hash, m: Manifest, leaf: Bytes, p: Placement, nodes: seq<string>, tier: string)
    requires IsManifest(m, h, leaf, p, nodes, tier)
    ensures m.n * m.replicas <= |nodes| && m.n <= 255 && p.m + 1 <= m.n < m.k + (p.m + 1)
    ensures m.replicas == p.shardReplicas
  {
  }

  lemma SeizedMeansUnavailable(f: Field<byte>, h: Hash, slots: map<Slot, Bytes>, m: Manifest, leaf: Bytes,
                               nodes: seq<string>, count: nat, limit: nat)
    requires Stored(f, slots, m, leaf)
    requires m.n <= 255 && IsPlacement(m.fragmentNodes, nodes, DefaultPoints(m.n), m.replicas)
    requires DisjointGroups(Groups(nodes, m.n, m.replicas), m.replicas) && count <= m.n < m.k + count
    ensures UnavailableWithout(f, h, slots, m, FirstGroups(Groups(nodes, m.n, m.replicas), count), limit)
  {
    var seized := FirstGroups(Groups(nodes, m.n, m.replicas), count);
    forall reach: set<string> | reach !! seized
      ensures Fetched(f, h, m, StoreReader(slots), Some(reach), limit) == Err(LeafUnavailable)
    {
      TooFewGathered(f, h, slots, m, leaf, nodes, reach, count, limit);
    }
  }

  lemma TooFewGathered(f: Field<byte>, h: Hash, slots: map<Slot, Bytes>, m: Manifest, leaf: Bytes, nodes: seq<string>,
                       reach: set<string>, count: nat, limit: nat)
    requires Stored(f, slots, m, leaf)
    requires m.n <= 255 && IsPlacement(m.fragmentNodes, nodes, DefaultPoints(m.n), m.replicas)
    requires DisjointGroups(Groups(nodes, m.n, m.replicas), m.replicas) && count <= m.n < m.k + count
    requires reach !! FirstGroups(Groups(nodes, m.n, m.replicas), count)
    ensures Fetched(f, h, m, StoreReader(slots), Some(reach), limit) == Err(LeafUnavailable)
  {
    FewGathered(f, slots, m, leaf, nodes, reach, count);
  }

  lemma FewGathered(f: Field<byte>, slots: map<Slot, Bytes>, m: Manifest, leaf: Bytes, nodes: seq<string>,
                    reach: set<string>, count: nat)
    requires Stored(f, slots, m, leaf)
    requires m.n <= 255 && IsPlacement(m.fragmentNodes, nodes, DefaultPoints(m.n), m.replicas)
    requires DisjointGroups(Groups(nodes, m.n, m.replicas), m.replicas) && count <= m.n
    requires reach !! FirstGroups(Groups(nodes, m.n, m.replicas), count)
    ensures |Gathered(StoreReader(slots), m, Some(reach))| <= m.n - count
  {
    var avail := Gathered(StoreReader(slots), m, Some(reach));
    GatheredFromStore(f, slots, m, leaf, Some(reach));
    forall x | x in avail ensures count + 1 <= x <= m.n {
      assert HasReachableCopy(m, Some(reach), x);
      LowPointsSeized(m, nodes, reach, count, x);
    }
    PointsInRange(avail, count + 1, m.n);
  }

  lemma LowPointsSeized(m: Manifest, nodes: seq<string>, reach: set<string>, count: nat, x: Point)
    requires m.n <= 255 && IsPlacement(m.fragmentNodes, nodes, DefaultPoints(m.n), m.replicas)
    requires DisjointGroups(Groups(nodes, m.n, m.replicas), m.replicas) && count <= m.n
    requires reach !! FirstGroups(Groups(nodes, m.n, m.replicas), count)
    requires x in m.fragmentNodes
    ensures 1 <= x <= m.n && (HasReachableCopy(m, Some(reach), x) ==> x > count)
  {
    var groups := Groups(nodes, m.n, m.replicas);
    PointListed(m, nodes, x);
    if x <= count {
      FirstGroupsSize(groups, m.replicas, count);
      assert groups[x - 1] == SetOf(CopiesOf(nodes, m.n, m.replicas, x - 1));
      SeizedHasNoCopy(m, nodes, reach, FirstGroups(groups, count), x);
    }
  }

  lemma PointListed(m: Manifest, nodes: seq<string>, x: Point)
    requires m.n <= 255 && IsPlacement(m.fragmentNodes, nodes, DefaultPoints(m.n), m.replicas)
    requires x in m.fragmentNodes
    ensures 1 <= x <= m.n
  {
    assert x in DefaultPoints(m.n);
  }

  // ------------------------------------------------ lies that are not routed around

  /** With k == 1 every fragment is the leaf itself. */
  lemma {:induction false} ReplicaFragment(f: Field<byte>, data: Bytes, x: byte)
    requires IsField(f)
    ensures Values(f, data, 1, x) == data
    decreases |data|
  {
    if data != [] {
      var b := data[..1];
      assert b[1..] == [] && Eval(f, b[1..], x) == f.zero;
      MulZero(f, x);
      assert LawsAt(f, b[0], f.zero, f.zero);
      assert LawsAt(f, f.zero, b[0], f.zero);
      ReplicaFragment(f, data[1..], x);
      assert data == [data[0]] + data[1..];
    }
  }

  lemma ReplicaDecodes(f: Field<byte>, data: Bytes, x: Point)
    requires IsField(f)
    ensures Reconstructed(f, map[x := data], 1, |data|) == Ok(data)
  {
    assert Pad(data, 1) == data;
    ReplicaFragment(f, data, ByteOf(x));
    RoundTrip(f, data, 1, [x], map[x := data]);
  }

  /** One node answers with bad bytes, every other node honestly. */
  function LyingReader(liar: string, bad: Bytes, leaf: Bytes): Reader {
    (s: Slot) => if s.node == liar then Some(bad) else Some(leaf)
  }

  /**
    The first copy that answers is the only one asked: a corrupt first copy of
    a fragment hides an honest second one, and the read fails although every
    fragment has an honest reachable copy.
   */
  lemma CorruptCopyMasksHonestOne(f: Field<byte>, h: Hash, leaf: Bytes, bad: Bytes, liar: string, honest: string,
                                  limit: nat)
    requires IsField(f) && h(bad) != h(leaf) && |bad| == |leaf| && liar != honest && limit >= 1
    ensures var m := Manifest(h(leaf), 1, 1, |leaf|, "runtime", 2, map[1 := [liar, honest]]);
            Fetched(f, h, m, LyingReader(liar, bad, leaf), None, limit) == Err(IntegrityError)
  {
    var m := Manifest(h(leaf), 1, 1, |leaf|, "runtime", 2, map[1 := [liar, honest]]);
    var get := LyingReader(liar, bad, leaf);
    assert AnswerFor(get, m, None, 1) == Some(bad);
    assert Gathered(get, m, None) == map[1 := bad];
    assert m.fragmentNodes.Keys == {1};
    LoneSelection(1);
    ReplicaDecodes(f, bad, 1);
    LoneFailure(DecoderOf(f, m), h, leaf, bad, 1, limit);
  }

  lemma LoneSelection(x: Point)
    ensures All(SortedPoints({x}), 1) == [[x]]
  {
    var xs := SortedPoints({x});
    assert |xs| == 1 && xs[0] in xs;
    assert xs == [x] && xs[1..] == [];
    assert All([], 0) == [[]] && All([], 1) == [];
  }

  lemma LoneFailure(decode: Decoder, h: Hash, leaf: Bytes, bad: Bytes, x: Point, limit: nat)
    requires h(bad) != h(leaf) && decode(map[x := bad]) == Ok(bad)
    ensures Try(decode, h, h(leaf), map[x := bad], [[x]], limit) == Err(IntegrityError)
  {
    assert Only(map[x := bad], [x]) == map[x := bad];
    assert [[x]][1..] == [];
  }

  lemma {:induction false} FirstSelection(xs: seq<Point>, k: nat)
    requires k <= |xs|
    ensures |All(xs, k)| > 0 && All(xs, k)[0] == xs[..k]
    decreases |xs|
  {
    if k > 0 {
      var m: nat := k - 1;
      FirstSelection(xs[1..], m);
      FirstSelectionStep(xs, m);
    }
  }

  lemma FirstSelectionStep(xs: seq<Point>, m: nat)
    requires m < |xs| && |All(xs[1..], m)| > 0 && All(xs[1..], m)[0] == xs[1..][..m]
    ensures |All(xs, m + 1)| > 0 && All(xs, m + 1)[0] == xs[..m + 1]
  {
    AllAt(xs, m + 1, 0);
    FirstAndRest(xs, m);
  }

  lemma FirstAndRest(xs: seq<Point>, m: nat)
    requires m < |xs|
    ensures xs[..m + 1] == [xs[0]] + xs[1..][..m]
  {
  }

  /** A fragment among the first k that is shorter than the very first aborts the whole read. */
  lemma ShortFragmentAborts(f: Field<byte>, h: Hash, m: Manifest, get: Reader, reachable: Option<set<string>>,
                            limit: nat, i: nat)
    requires limit >= 1 && i < m.k <= |Gathered(get, m, reachable)|
    requires var avail := Gathered(get, m, reachable);
             var xs := SortedPoints(avail.Keys);
             |xs| == |avail| && xs[i] in avail && xs[0] in avail && |avail[xs[i]]| < |avail[xs[0]]|
    ensures Fetched(f, h, m, get, reachable, limit) == Err(IndexError)
  {
    var avail := Gathered(get, m, reachable);
    var xs := SortedPoints(avail.Keys);
    FirstSelection(xs, m.k);
    SortedAscending(avail.Keys);
    FirstDecodeFails(f, avail, xs, m.k, m.origLen, i);
    FirstTryFails(DecoderOf(f, m), h, m.root, avail, All(xs, m.k), limit);
  }

  lemma FirstTryFails(decode: Decoder, h: Hash, root: string, avail: map<Point, Bytes>, cs: seq<seq<Point>>, limit: nat)
    requires cs != [] && limit >= 1 && decode(Only(avail, cs[0])).Err?
    ensures Try(decode, h, root, avail, cs, limit) == decode(Only(avail, cs[0]))
  {
  }

  lemma PrefixIn(avail: map<Point, Bytes>, xs: seq<Point>, k: nat)
    requires k <= |xs| && Ascending(xs) && forall x :: x in xs ==> x in avail
    ensures Ascending(xs[..k]) && forall j :: 0 <= j < k ==> xs[..k][j] in avail
  {
    forall j | 0 <= j < k ensures xs[..k][j] in avail {
      assert xs[..k][j] == xs[j];
    }
  }

  lemma FirstDecodeFails(f: Field<byte>, avail: map<Point, Bytes>, xs: seq<Point>, k: nat, origLen: nat, i: nat)
    requires i < k <= |xs| && Ascending(xs) && forall x :: x in xs ==> x in avail
    requires xs[i] in avail && xs[0] in avail && |avail[xs[i]]| < |avail[xs[0]]|
    ensures Reconstructed(f, Only(avail, xs[..k]), k, origLen) == Err(IndexError)
  {
    var c := xs[..k];
    PrefixIn(avail, xs, k);
    FirstPointsOf(avail, c);
    UnevenFails(f, Only(avail, c), c, k, origLen, i);
  }

  lemma FirstPointsOf(avail: map<Point, Bytes>, c: seq<Point>)
    requires Ascending(c) && forall j :: 0 <= j < |c| ==> c[j] in avail
    ensures |Only(avail, c)| == |c| && FirstPoints(Only(avail, c), |c|) == c
  {
    OnlySize(avail, c);
    assert Only(avail, c).Keys == SetOf(c);
    SortedIsUnique(c);
  }

  lemma UnevenFails(f: Field<byte>, fragments: map<Point, Bytes>, c: seq<Point>, k: nat, origLen: nat, i: nat)
    requires 0 < k <= |fragments| && FirstPoints(fragments, k) == c && i < k
    requires |fragments[c[i]]| < |fragments[c[0]]|
    ensures Reconstructed(f, fragments, k, origLen) == Err(IndexError)
  {
    var frs := FragmentsAt(fragments, c);
    assert |frs[i]| < |frs[0]|;
  }

  lemma SortedAscending(s: set<Point>)
    ensures Ascending(SortedPoints(s))
  {
  }

  lemma FirstIsMember(b: seq<int>)
    requires b != []
    ensures b[0] in b
  {
  }

  lemma {:induction false} AscendingUnique(a: seq<int>, b: seq<int>)
    requires Ascending(a) && Ascending(b) && forall x :: x in a <==> x in b
    ensures a == b
    decreases |a|
  {
    if a == [] {
      if b != [] {
        FirstIsMember(b);
        assert false;
      }
    } else {
      assert a[0] in b && b != [] && b[0] in a;
      SmallestFirst(a, b[0]);
      SmallestFirst(b, a[0]);
      forall x ensures x in a[1..] <==> x in b[1..] {
        TailMembers(a, x);
        TailMembers(b, x);
      }
      AscendingUnique(a[1..], b[1..]);
      assert a == [a[0]] + a[1..] && b == [b[0]] + b[1..];
    }
  }

  lemma SmallestFirst(a: seq<int>, x: int)
    requires Ascending(a) && x in a
    ensures a[0] <= x
  {
    var i :| 0 <= i < |a| && a[i] == x;
    if i > 0 {
      assert a[0] < a[i];
    }
  }

  lemma TailMembers(a: seq<int>, x: int)
    requires Ascending(a) && a != []
    ensures x in a[1..] <==> x in a && x != a[0]
  {
    assert a == [a[0]] + a[1..];
    if x in a[1..] {
      var i :| 0 <= i < |a| - 1 && a[1..][i] == x;
      assert a[0] < a[i + 1];
    }
  }

  lemma SortedIsUnique(c: seq<Point>)
    requires Ascending(c)
    ensures Sorted(SetOf(c)) == c
  {
    AscendingUnique(Sorted(SetOf(c)), c);
  }
}

/** What the read path promises, against any answers and after any bounded seizure. */
module FetchTheorems {
  import opened Fields
  import opened Octets
  import opened HolographicIda
  import opened IdaTheorems
  import opened FragmentPlacement
  import opened Combinations
  import opened MeshData
  import opened LeafPropagation
  import opened Common

  // -------------------------------------------------------- nothing unverified

  lemma {:induction false} TryVerified(decode: Decoder, h: Hash, root: string, avail: map<Point, Bytes>,
                                       cs: seq<seq<Point>>, limit: nat)
    ensures var r := Try(decode, h, root, avail, cs, limit); r.Ok? ==> h(r.value) == root
    decreases |cs|
  {
    if cs != [] && limit > 0 {
      TryVerified(decode, h, root, avail, cs[1..], limit - 1);
    }
  }

  /** Whatever the nodes answer, bytes are returned only if they have the committed root. */
  lemma FetchIsVerified(f: Field<byte>, h: Hash, m: Manifest, get: Reader, reachable: Option<set<string>>, limit: nat)
    ensures var r := Fetched(f, h, m, get, reachable, limit); r.Ok? ==> h(r.value) == m.root
  {
    var avail := Gathered(get, m, reachable);
    if |avail| >= m.k {
      TryVerified(DecoderOf(f, m), h, m.root, avail, All(SortedPoints(avail.Keys), m.k), limit);
    }
  }

  // ------------------------------------------------------ routing around lies

  /** None of the byte strings the selections decode to collides with the leaf. */
  ghost predicate NoCollision(decode: Decoder, h: Hash, leaf: Bytes, avail: map<Point, Bytes>, cs: seq<seq<Point>>) {
    forall j :: 0 <= j < |cs| ==> SafeAt(decode, h, leaf, avail, cs[j])
  }

  ghost predicate SafeAt(decode: Decoder, h: Hash, leaf: Bytes, avail: map<Point, Bytes>, c: seq<Point>) {
    var rec := decode(Only(avail, c));
    rec.Ok? && h(rec.value) == h(leaf) ==> rec.value == leaf
  }

  /** The same for a read from these answers. */
  ghost predicate NoCollisionIn(f: Field<byte>, h: Hash, m: Manifest, avail: map<Point, Bytes>, leaf: Bytes) {
    NoCollision(DecoderOf(f, m), h, leaf, avail, All(SortedPoints(avail.Keys), m.k))
  }

  lemma {:induction false} TryFinds(decode: Decoder, h: Hash, leaf: Bytes, avail: map<Point, Bytes>,
                                    cs: seq<seq<Point>>, limit: nat, i: nat)
    requires i < |cs| && i < limit
    requires decode(Only(avail, cs[i])) == Ok(leaf)
    requires i == 0 || NoCollision(decode, h, leaf, avail, cs)
    requires forall j :: 0 <= j < i ==> decode(Only(avail, cs[j])).Ok?
    ensures Try(decode, h, h(leaf), avail, cs, limit) == Ok(leaf)
    decreases i
  {
    if i > 0 {
      assert decode(Only(avail, cs[0])).Ok? && SafeAt(decode, h, leaf, avail, cs[0]);
      assert forall j :: 0 <= j < |cs| - 1 ==> cs[1..][j] == cs[j + 1];
      TryFinds(decode, h, leaf, avail, cs[1..], limit - 1, i - 1);
    }
  }

  /** The gathered fragment x is the one the leaf's dispersal stored. */
  ghost predicate Genuine(f: Field<byte>, leaf: Bytes, k: nat, avail: map<Point, Bytes>, x: Point)
    requires k > 0
  {
    x in avail && avail[x] == Fragment(f, leaf, k, x)
  }

  lemma OnlySize(avail: map<Point, Bytes>, c: seq<Point>)
    requires NoRepeats(c) && forall i :: 0 <= i < |c| ==> c[i] in avail
    ensures |Only(avail, c)| == |c|
  {
    SetOfSize(c);
    assert Only(avail, c).Keys == SetOf(c);
    assert |Only(avail, c)| == |Only(avail, c).Keys|;
  }

  /** Fragments of one length never run out early. */
  lemma EqualLengthsDecode(f: Field<byte>, frags: map<Point, Bytes>, k: nat, origLen: nat, len: nat)
    requires 1 <= k <= |frags| && forall x :: x in frags ==> |frags[x]| == len
    ensures Reconstructed(f, frags, k, origLen).Ok?
  {
    var xs := FirstPoints(frags, k);
    var frs := FragmentsAt(frags, xs);
    assert forall i :: 0 <= i < |frs| ==> |frs[i]| == len;
    assert Level(frs);
  }

  /** A selection of genuine fragments decodes to the leaf. */
  lemma GenuineDecodes(f: Field<byte>, leaf: Bytes, k: nat, avail: map<Point, Bytes>, c: seq<Point>)
    requires IsField(f) && k > 0 && |c| == k && NoRepeats(c)
    requires forall i :: 0 <= i < |c| ==> Genuine(f, leaf, k, avail, c[i])
    ensures Reconstructed(f, Only(avail, c), k, |leaf|) == Ok(leaf)
  {
    OnlySize(avail, c);
    var kept := Only(avail, c);
    forall x | x in kept ensures x in c && kept[x] == Fragment(f, leaf, k, x) {
      var i :| 0 <= i < |c| && c[i] == x;
      assert Genuine(f, leaf, k, avail, c[i]);
    }
    RoundTrip(f, leaf, k, c, kept);
  }

  lemma SelectionsDecode(f: Field<byte>, m: Manifest, avail: map<Point, Bytes>, xs: seq<Point>, len: nat, j: nat)
    requires m.k >= 1 && NoRepeats(xs) && j < |All(xs, m.k)|
    requires forall x :: x in xs <==> x in avail
    requires forall x :: x in avail ==> |avail[x]| == len
    ensures Reconstructed(f, Only(avail, All(xs, m.k)[j]), m.k, m.origLen).Ok?
  {
    var c := All(xs, m.k)[j];
    AllSelect(xs, m.k, j);
    OnlySize(avail, c);
    EqualLengthsDecode(f, Only(avail, c), m.k, m.origLen, len);
  }

  lemma TryRoutesAround(f: Field<byte>, h: Hash, m: Manifest, avail: map<Point, Bytes>, xs: seq<Point>,
                        limit: nat, leaf: Bytes, honest: set<Point>, len: nat)
    requires IsField(f) && NoCollision(DecoderOf(f, m), h, leaf, avail, All(xs, m.k)) && m.k >= 1 && m.origLen == |leaf|
    requires NoRepeats(xs) && |xs| == |avail| && forall x :: x in xs <==> x in avail
    requires |honest| >= m.k && forall x :: x in honest ==> Genuine(f, leaf, m.k, avail, x)
    requires forall x :: x in avail ==> |avail[x]| == len
    requires Choose(|avail|, m.k) <= limit
    ensures Try(DecoderOf(f, m), h, h(leaf), avail, All(xs, m.k), limit) == Ok(leaf)
  {
    var cs := All(xs, m.k);
    CountInSize(xs, honest);
    var i := SomeSelectionIn(xs, honest, m.k);
    AllCount(xs, m.k);
    AllSelect(xs, m.k, i);
    GenuineDecodes(f, leaf, m.k, avail, cs[i]);
    forall j | 0 <= j < i ensures DecoderOf(f, m)(Only(avail, cs[j])).Ok? {
      SelectionsDecode(f, m, avail, xs, len, j);
    }
    TryFinds(DecoderOf(f, m), h, leaf, avail, cs, limit, i);
  }

  /**
    With at least k genuine fragments among those gathered, all of the
    dispersed length, and enough attempts for every selection, the leaf is
    returned however the other fragments were corrupted.
   */
  lemma FetchRoutesAround(f: Field<byte>, h: Hash, m: Manifest, get: Reader, reachable: Option<set<string>>,
                          limit: nat, leaf: Bytes, honest: set<Point>, len: nat)
    requires IsField(f) && NoCollisionIn(f, h, m, Gathered(get, m, reachable), leaf)
    requires m.root == h(leaf) && m.k >= 1 && m.origLen == |leaf|
    requires |honest| >= m.k
    requires forall x :: x in honest ==> Genuine(f, leaf, m.k, Gathered(get, m, reachable), x)
    requires forall x :: x in Gathered(get, m, reachable) ==> |Gathered(get, m, reachable)[x]| == len
    requires Choose(|Gathered(get, m, reachable)|, m.k) <= limit
    ensures Fetched(f, h, m, get, reachable, limit) == Ok(leaf)
  {
    AnswersRouteAround(f, h, m, Gathered(get, m, reachable), limit, leaf, honest, len);
    FetchedIsTry(f, h, m, get, reachable, limit);
  }

  lemma AnswersRouteAround(f: Field<byte>, h: Hash, m: Manifest, avail: map<Point, Bytes>, limit: nat, leaf: Bytes,
                           honest: set<Point>, len: nat)
    requires IsField(f) && NoCollisionIn(f, h, m, avail, leaf) && m.k >= 1 && m.origLen == |leaf|
    requires |honest| >= m.k && forall x :: x in honest ==> Genuine(f, leaf, m.k, avail, x)
    requires forall x :: x in avail ==> |avail[x]| == len
    requires Choose(|avail|, m.k) <= limit
    ensures |avail| >= m.k
    ensures Try(DecoderOf(f, m), h, h(leaf), avail, All(SortedPoints(avail.Keys), m.k), limit) == Ok(leaf)
  {
    EnoughGathered(avail, honest);
    SortedKeys(avail);
    TryRoutesAround(f, h, m, avail, SortedPoints(avail.Keys), limit, leaf, honest, len);
  }

  lemma SortedKeys(avail: map<Point, Bytes>)
    ensures var xs := SortedPoints(avail.Keys); |xs| == |avail| && NoRepeats(xs) && forall x :: x in xs <==> x in avail
  {
    assert |avail| == |avail.Keys|;
  }

  lemma FetchedIsTry(f: Field<byte>, h: Hash, m: Manifest, get: Reader, reachable: Option<set<string>>, limit: nat)
    requires |Gathered(get, m, reachable)| >= m.k
    ensures var avail := Gathered(get, m, reachable);
      Fetched(f, h, m, get, reachable, limit)
      == Try(DecoderOf(f, m), h, m.root, avail, All(SortedPoints(avail.Keys), m.k), limit)
  {
  }

  lemma EnoughGathered(avail: map<Point, Bytes>, honest: set<Point>)
    requires forall x :: x in honest ==> x in avail
    ensures |avail| >= |honest|
  {
    assert honest <= avail.Keys;
    assert avail.Keys == honest + (avail.Keys - honest);
  }

  /** If every gathered fragment is genuine and there are k of them, the first attempt succeeds. */
  lemma HonestFetch(f: Field<byte>, h: Hash, m: Manifest, get: Reader, reachable: Option<set<string>>,
                    limit: nat, leaf: Bytes)
    requires IsField(f) && limit >= 1
    requires m.root == h(leaf) && m.k >= 1 && m.origLen == |leaf|
    requires |Gathered(get, m, reachable)| >= m.k
    requires forall x :: x in Gathered(get, m, reachable) ==> Genuine(f, leaf, m.k, Gathered(get, m, reachable), x)
    ensures Fetched(f, h, m, get, reachable, limit) == Ok(leaf)
  {
    var avail := Gathered(get, m, reachable);
    var xs := SortedPoints(avail.Keys);
    assert |avail| == |avail.Keys| == |xs|;
    TryHonest(f, h, m, avail, xs, limit, leaf);
  }

  lemma TryHonest(f: Field<byte>, h: Hash, m: Manifest, avail: map<Point, Bytes>, xs: seq<Point>, limit: nat,
                  leaf: Bytes)
    requires IsField(f) && limit >= 1 && m.k >= 1 && m.origLen == |leaf|
    requires NoRepeats(xs) && |xs| == |avail| >= m.k && forall x :: x in xs <==> x in avail
    requires forall x :: x in avail ==> Genuine(f, leaf, m.k, avail, x)
    ensures Try(DecoderOf(f, m), h, h(leaf), avail, All(xs, m.k), limit) == Ok(leaf)
  {
    var cs := All(xs, m.k);
    assert |avail.Keys| == |avail|;
    CountInSize(xs, avail.Keys);
    var i := SomeSelectionIn(xs, avail.Keys, m.k);
    AllSelect(xs, m.k, 0);
    GenuineDecodes(f, leaf, m.k, avail, cs[0]);
    TryFinds(DecoderOf(f, m), h, leaf, avail, cs, limit, 0);
  }

  // --------------------------------------------------------- surviving seizure

  /** When every copy holds the same bytes, the first answer is those bytes or nothing. */
  lemma {:induction false} AnswerOfCopies(slots: map<Slot, Bytes>, root: string, x: Point, nodes: seq<string>,
                                          reachable: Option<set<string>>, v: Bytes)
    requires forall node :: node in nodes ==> Slot(node, root, x) in slots && slots[Slot(node, root, x)] == v
    ensures FirstAnswer(StoreReader(slots), root, x, nodes, reachable)
            == if exists node :: node in nodes && Reachable(reachable, node) then Some(v) else None
    decreases |nodes|
  {
    if nodes != [] {
      assert nodes[0] in nodes;
      AnswerOfCopies(slots, root, x, nodes[1..], reachable, v);
    }
  }

  /** The store holds every copy a manifest of this leaf names. */
  ghost predicate Stored(f: Field<byte>, slots: map<Slot, Bytes>, m: Manifest, leaf: Bytes) {
    && m.k >= 1
    && forall s :: Names(m.fragmentNodes, m.root, s) ==> s in slots && slots[s] == Fragment(f, leaf, m.k, s.x)
  }

  /** Writing a leaf stores it. */
  lemma WrittenIsStored(f: Field<byte>, h: Hash, before: map<Slot, Bytes>, after: map<Slot, Bytes>, m: Manifest,
                        leaf: Bytes, p: Placement, nodes: seq<string>, tier: string)
    requires IsManifest(m, h, leaf, p, nodes, tier)
    requires forall x :: x in m.fragmentNodes ==> x in Dispersed(f, leaf, m.k, DefaultPoints(m.n)).fragments
    requires Written(before, after, m.root, m.fragmentNodes, Dispersed(f, leaf, m.k, DefaultPoints(m.n)).fragments)
    ensures Stored(f, after, m, leaf)
  {
  }

  ghost predicate HasReachableCopy(m: Manifest, reachable: Option<set<string>>, x: Point) {
    x in m.fragmentNodes && exists node :: node in m.fragmentNodes[x] && Reachable(reachable, node)
  }

  /** From an intact store the reader gathers the genuine fragment of every reachable copy. */
  lemma GatheredFromStore(f: Field<byte>, slots: map<Slot, Bytes>, m: Manifest, leaf: Bytes,
                          reachable: Option<set<string>>)
    requires Stored(f, slots, m, leaf)
    ensures forall x :: x in Gathered(StoreReader(slots), m, reachable) <==> HasReachableCopy(m, reachable, x)
    ensures forall x :: x in Gathered(StoreReader(slots), m, reachable) ==>
      Genuine(f, leaf, m.k, Gathered(StoreReader(slots), m, reachable), x)
  {
    forall x | x in m.fragmentNodes
      ensures AnswerFor(StoreReader(slots), m, reachable, x)
              == if HasReachableCopy(m, reachable, x) then Some(Fragment(f, leaf, m.k, x)) else None
    {
      forall node | node in m.fragmentNodes[x]
        ensures Slot(node, m.root, x) in slots && slots[Slot(node, m.root, x)] == Fragment(f, leaf, m.k, x)
      {
        assert Names(m.fragmentNodes, m.root, Slot(node, m.root, x));
      }
      AnswerOfCopies(slots, m.root, x, m.fragmentNodes[x], reachable, Fragment(f, leaf, m.k, x));
    }
  }

  /** An intact store with k fragments in reach gives the leaf back. */
  lemma FetchFromStore(f: Field<byte>, h: Hash, slots: map<Slot, Bytes>, m: Manifest, leaf: Bytes,
                       reachable: Option<set<string>>, limit: nat, inReach: set<Point>)
    requires IsField(f) && limit >= 1 && Stored(f, slots, m, leaf)
    requires m.root == h(leaf) && m.origLen == |leaf|
    requires |inReach| >= m.k && forall x :: x in inReach ==> HasReachableCopy(m, reachable, x)
    ensures Fetched(f, h, m, StoreReader(slots), reachable, limit) == Ok(leaf)
  {
    GatheredFromStore(f, slots, m, leaf, reachable);
    EnoughGathered(Gathered(StoreReader(slots), m, reachable), inReach);
    HonestFetch(f, h, m, StoreReader(slots), reachable, limit, leaf);
  }

  /** The ids of those among the first `count` fragments that keep a copy. */
  ghost function Kept(groups: seq<set<string>>, seized: set<string>, count: nat): (s: set<Point>)
    requires count <= |groups| <= 255
  {
    if count == 0 then {}
    else if groups[count - 1] <= seized then Kept(groups, seized, count - 1)
    else Kept(groups, seized, count - 1) + {count}
  }

  lemma {:induction false} KeptSize(groups: seq<set<string>>, seized: set<string>, count: nat)
    requires count <= |groups| <= 255
    ensures |Kept(groups, seized, count)| == count - LostCount(groups, seized, count)
    ensures forall x :: x in Kept(groups, seized, count) ==> 1 <= x <= count && !(groups[x - 1] <= seized)
    decreases count
  {
    if count > 0 {
      var m: nat := count - 1;
      KeptSize(groups, seized, m);
      OneMoreKept(Kept(groups, seized, m), m);
    }
  }

  lemma OneMoreKept(kept: set<Point>, m: nat)
    requires m < 255 && forall x :: x in kept ==> 1 <= x <= m
    ensures m + 1 !in kept && |kept + {m + 1}| == |kept| + 1
  {
  }

  /** Every node with a copy, except for the seized ones, is in reach. */
  ghost predicate CopiesReach(m: Manifest, seized: set<string>, reach: set<string>) {
    forall x, node :: x in m.fragmentNodes && node in m.fragmentNodes[x] && node !in seized ==> node in reach
  }

  lemma KeptReachable(m: Manifest, nodes: seq<string>, seized: set<string>, reach: set<string>, x: Point)
    requires m.n <= 255 && IsPlacement(m.fragmentNodes, nodes, DefaultPoints(m.n), m.replicas)
    requires CopiesReach(m, seized, reach)
    requires 1 <= x <= m.n && !(SetOf(CopiesOf(nodes, m.n, m.replicas, x - 1)) <= seized)
    ensures HasReachableCopy(m, Some(reach), x)
  {
    var copies := CopiesOf(nodes, m.n, m.replicas, x - 1);
    var node := Outside(SetOf(copies), seized);
    assert DefaultPoints(m.n)[x - 1] == x;
    assert m.fragmentNodes[x] == copies;
  }

  /** How many fragments a bounded seizure leaves in reach. */
  lemma KeptInReach(m: Manifest, nodes: seq<string>, spare: nat, seized: set<string>, reach: set<string>)
    returns (kept: set<Point>)
    requires m.n <= 255 && IsPlacement(m.fragmentNodes, nodes, DefaultPoints(m.n), m.replicas)
    requires NoRepeats(nodes) && |seized| < (spare + 1) * m.replicas && CopiesReach(m, seized, reach)
    ensures |kept| >= m.n - spare && forall x :: x in kept ==> HasReachableCopy(m, Some(reach), x)
  {
    assert |DefaultPoints(m.n)| == m.n;
    var groups := Groups(nodes, m.n, m.replicas);
    GroupsDisjoint(nodes, m.n, m.replicas);
    FewLost(groups, m.replicas, spare, seized);
    KeptSize(groups, seized, m.n);
    kept := Kept(groups, seized, m.n);
    forall x | x in kept ensures HasReachableCopy(m, Some(reach), x) {
      KeptGroup(nodes, m.n, m.replicas, seized, x);
      KeptReachable(m, nodes, seized, reach, x);
    }
  }

  lemma KeptGroup(nodes: seq<string>, n: nat, replicas: nat, seized: set<string>, x: Point)
    requires n * replicas <= |nodes| && 1 <= x <= n && !(Groups(nodes, n, replicas)[x - 1] <= seized)
    ensures !(SetOf(CopiesOf(nodes, n, replicas, x - 1)) <= seized)
  {
  }

  /**
    Seizure: on a mesh of distinct nodes, a written leaf is fetched exactly
    from whatever is left after fewer than (n - k + 1) * R nodes are seized.
   */
  lemma SurvivesSeizure(f: Field<byte>, h: Hash, slots: map<Slot, Bytes>, m: Manifest, leaf: Bytes, p: Placement,
                        nodes: seq<string>, tier: string, seized: set<string>, reach: set<string>, limit: nat)
    requires IsField(f) && limit >= 1 && NoRepeats(nodes)
    requires IsManifest(m, h, leaf, p, nodes, tier) && Stored(f, slots, m, leaf)
    requires forall node :: node in nodes && node !in seized ==> node in reach
    requires |seized| < (p.m + 1) * p.shardReplicas
    ensures Fetched(f, h, m, StoreReader(slots), Some(reach), limit) == Ok(leaf)
  {
    forall x, node | x in m.fragmentNodes && node in m.fragmentNodes[x] && node !in seized ensures node in reach {
      CopyOnMesh(m, nodes, x, node);
    }
    SurvivesLoss(f, h, slots, m, leaf, p, nodes, tier, seized, reach, limit);
  }

  lemma CopyOnMesh(m: Manifest, nodes: seq<string>, x: Point, node: string)
    requires m.n <= 255 && IsPlacement(m.fragmentNodes, nodes, DefaultPoints(m.n), m.replicas)
    requires x in m.fragmentNodes && node in m.fragmentNodes[x]
    ensures node in nodes
  {
    assert x in DefaultPoints(m.n);
    var i :| 0 <= i < |DefaultPoints(m.n)| && DefaultPoints(m.n)[i] == x;
    CopiesAreNodes(nodes, m.n, m.replicas, i, node);
  }

  /** The same when only the nodes that hold a copy are counted as seized. */
  lemma SurvivesLoss(f: Field<byte>, h: Hash, slots: map<Slot, Bytes>, m: Manifest, leaf: Bytes, p: Placement,
                     nodes: seq<string>, tier: string, seized: set<string>, reach: set<string>, limit: nat)
    requires IsField(f) && limit >= 1 && NoRepeats(nodes)
    requires IsManifest(m, h, leaf, p, nodes, tier) && Stored(f, slots, m, leaf)
    requires CopiesReach(m, seized, reach) && |seized| < (p.m + 1) * p.shardReplicas
    ensures Fetched(f, h, m, StoreReader(slots), Some(reach), limit) == Ok(leaf)
  {
    var kept := KeptInReach(m, nodes, p.m, seized, reach);
    FetchFromStore(f, h, slots, m, leaf, Some(reach), limit, kept);
  }
}

/**
  Losing leaves that stand in a row in the tree: exactly how many a written
  leaf survives, and when a subtree is decisive.
 */
module PlacementLoss {
  import opened Arithmetic
  import opened Fields
  import opened Octets
  import opened HolographicIda
  import opened MeshTopology
  import opened FragmentPlacement
  import opened PlacementSpread
  import opened MeshData
  import opened LeafPropagation
  import opened FetchTheorems
  import opened FetchLimits
  import opened Common

  // -------------------------------------------------------------- enough is left

  /** All nodes but some are in reach. */
  ghost predicate AllBut(nodes: seq<string>, lost: seq<string>, reach: set<string>) {
    forall node :: node in nodes && node !in lost ==> node in reach
  }

  lemma OthersInReach(m: Manifest, nodes: seq<string>, lost: seq<string>, reach: set<string>)
    requires m.n <= 255 && IsPlacement(m.fragmentNodes, nodes, DefaultPoints(m.n), m.replicas)
    requires AllBut(nodes, lost, reach)
    ensures CopiesReach(m, Holders(m.fragmentNodes, lost), reach)
  {
    forall x, node | x in m.fragmentNodes && node in m.fragmentNodes[x] && node !in Holders(m.fragmentNodes, lost)
      ensures node in reach
    {
      CopyOnMesh(m, nodes, x, node);
      assert HoldsCopy(m.fragmentNodes, node);
    }
  }

  lemma ManifestPlaced(m: Manifest, nodes: seq<string>)
    requires m.n <= 255 && IsPlacement(m.fragmentNodes, nodes, DefaultPoints(m.n), m.replicas)
    ensures PlacedUpTo(m.fragmentNodes, nodes, DefaultPoints(m.n), m.replicas, m.n)
  {
    var xs := DefaultPoints(m.n);
    forall x | x in m.fragmentNodes ensures m.fragmentNodes[x] == Dealt(nodes, xs, m.replicas, x, |xs|) {
      var i :| 0 <= i < |xs| && xs[i] == x;
      DealtOnce(nodes, xs, m.replicas, i, |xs|);
    }
  }

  lemma ManifestSpread(m: Manifest, nodes: seq<string>, total: nat)
    requires m.n <= 255 && IsPlacement(m.fragmentNodes, nodes, DefaultPoints(m.n), m.replicas)
    requires NoRepeats(nodes) && total == m.n * m.replicas && 0 < total <= |nodes|
    ensures Spread(m.fragmentNodes, nodes, |nodes| / total)
  {
    var xs := DefaultPoints(m.n);
    assert |xs| * m.replicas == total;
    ManifestPlaced(m, nodes);
    PlacementIsSpread(m.fragmentNodes, nodes, xs, m.replicas);
  }

  /** The nodes are written to at multiples of this distance. */
  ghost predicate IsGap(gap: nat, nodes: seq<string>, p: Placement) {
    Fits(p, nodes) && gap == |nodes| / ((p.k + p.m) * p.shardReplicas)
  }

  /** It is positive, whatever fits. */
  lemma GapPositive(gap: nat, nodes: seq<string>, p: Placement)
    requires IsGap(gap, nodes, p)
    ensures gap >= 1
  {
    QuotientPositive(|nodes|, (p.k + p.m) * p.shardReplicas);
  }

  lemma ManifestByGap(h: Hash, m: Manifest, leaf: Bytes, p: Placement, nodes: seq<string>, tier: string, gap: nat)
    requires NoRepeats(nodes) && IsManifest(m, h, leaf, p, nodes, tier) && IsGap(gap, nodes, p)
    ensures Spread(m.fragmentNodes, nodes, gap)
  {
    ManifestSpread(m, nodes, m.n * m.replicas);
  }

  /** Losing a run of leaves is harmless if it cannot hold (m + 1) R copies. */
  lemma RunLossSurvives(f: Field<byte>, h: Hash, slots: map<Slot, Bytes>, m: Manifest, leaf: Bytes, p: Placement,
                        nodes: seq<string>, tier: string, run: seq<string>, lo: nat, reach: set<string>, limit: nat,
                        gap: nat)
    requires IsField(f) && limit >= 1 && NoRepeats(nodes)
    requires IsManifest(m, h, leaf, p, nodes, tier) && Stored(f, slots, m, leaf)
    requires lo + |run| <= |nodes| && nodes[lo..lo + |run|] == run && AllBut(nodes, run, reach)
    requires IsGap(gap, nodes, p) && gap >= 1 && (|run| + gap - 1) / gap < (p.m + 1) * p.shardReplicas
    ensures Fetched(f, h, m, StoreReader(slots), Some(reach), limit) == Ok(leaf)
  {
    ManifestByGap(h, m, leaf, p, nodes, tier, gap);
    FewHolders(m.fragmentNodes, nodes, gap, run, lo);
    OthersInReach(m, nodes, run, reach);
    SurvivesLoss(f, h, slots, m, leaf, p, nodes, tier, Holders(m.fragmentNodes, run), reach, limit);
  }

  /**
    Losing a whole subtree of L leaves does not lose a leaf written with m
    parity shards and R copies, if the copies it can hold are fewer than (m + 1) R.
   */
  lemma SubtreeLossSurvives(f: Field<byte>, h: Hash, slots: map<Slot, Bytes>, m: Manifest, leaf: Bytes, p: Placement,
                            nodes: seq<string>, tier: string, s: Tree, reach: set<string>, limit: nat, gap: nat)
    requires IsField(f) && limit >= 1 && nodes != [] && NoRepeats(nodes)
    requires IsManifest(m, h, leaf, p, nodes, tier) && Stored(f, slots, m, leaf)
    requires Contains(Balanced(nodes), s) && AllBut(nodes, Leaves(s), reach)
    requires IsGap(gap, nodes, p) && gap >= 1 && (|Leaves(s)| + gap - 1) / gap < (p.m + 1) * p.shardReplicas
    ensures Fetched(f, h, m, StoreReader(slots), Some(reach), limit) == Ok(leaf)
  {
    var lo := SubtreeInMesh(nodes, s);
    RunLossSurvives(f, h, slots, m, leaf, p, nodes, tier, Leaves(s), lo, reach, limit, gap);
  }

  // ------------------------------------------------------------ too little is left

  /** A run of that many slots from the first leaf on is that long. */
  lemma SlotsReachInto(count: nat, length: nat, gap: nat, slot: nat)
    requires gap >= 1 && count <= (length + gap - 1) / gap && slot < count
    ensures slot * gap < length
  {
    var q := (length + gap - 1) / gap;
    assert length + gap - 1 == gap * q + (length + gap - 1) % gap;
    MulSucc(slot, gap);
    MulAtMost(slot + 1, q, gap);
  }

  lemma MulAtMost(a: nat, b: nat, k: nat)
    requires a <= b
    ensures a * k <= b * k
  {
    if a < b {
      MulMonotone(a, b, k);
    }
  }

  /** The copies of the first fragments are at the first leaves. */
  lemma FirstCopiesInside(nodes: seq<string>, n: nat, replicas: nat, gap: nat, length: nat, count: nat, i: nat)
    requires 0 < n * replicas <= |nodes| && gap == |nodes| / (n * replicas) && gap >= 1 && length <= |nodes|
    requires i < count <= n && count * replicas <= (length + gap - 1) / gap
    ensures SetOf(CopiesOf(nodes, n, replicas, i)) <= SetOf(nodes[..length])
  {
    var copies := CopiesOf(nodes, n, replicas, i);
    CopiesAtSlots(nodes, n, replicas, i, gap);
    forall r | 0 <= r < replicas ensures copies[r] in nodes[..length] {
      CopyInside(nodes, gap, length, count * replicas, Run(i * replicas, replicas)[r], copies[r]) by {
        SlotBelow(count, replicas, i, r);
      }
    }
  }

  lemma CopyInside(nodes: seq<string>, gap: nat, length: nat, count: nat, slot: nat, node: string)
    requires gap >= 1 && length <= |nodes| && slot < count <= (length + gap - 1) / gap
    requires HoldsSlot(nodes, gap, slot, node)
    ensures node in nodes[..length]
  {
    SlotsReachInto(count, length, gap, slot);
    assert nodes[..length][slot * gap] == node;
  }

  lemma {:induction false} FirstGroupsInside(groups: seq<set<string>>, count: nat, whole: set<string>)
    requires count <= |groups| && forall i :: 0 <= i < count ==> groups[i] <= whole
    ensures FirstGroups(groups, count) <= whole
    decreases count
  {
    if count > 0 {
      FirstGroupsInside(groups, count - 1, whole);
    }
  }

  /** Without the first leaves, long enough a run of them, the leaf cannot be read from any others. */
  lemma FirstLeavesDecide(f: Field<byte>, h: Hash, slots: map<Slot, Bytes>, m: Manifest, leaf: Bytes, p: Placement,
                          nodes: seq<string>, tier: string, length: nat, limit: nat, gap: nat)
    requires NoRepeats(nodes) && IsManifest(m, h, leaf, p, nodes, tier) && Stored(f, slots, m, leaf)
    requires IsGap(gap, nodes, p) && gap >= 1 && length <= |nodes|
    requires (p.m + 1) * p.shardReplicas <= (length + gap - 1) / gap
    ensures UnavailableWithout(f, h, slots, m, SetOf(nodes[..length]), limit)
  {
    ManifestFits(h, m, leaf, p, nodes, tier);
    FirstGroupsAtFront(nodes, m.n, m.replicas, gap, length, p.m + 1);
    GroupsDisjoint(nodes, m.n, m.replicas);
    SeizedMeansUnavailable(f, h, slots, m, leaf, nodes, p.m + 1, limit);
  }

  lemma FirstGroupsAtFront(nodes: seq<string>, n: nat, replicas: nat, gap: nat, length: nat, count: nat)
    requires 0 < n * replicas <= |nodes| && gap == |nodes| / (n * replicas) && gap >= 1 && length <= |nodes|
    requires count <= n && count * replicas <= (length + gap - 1) / gap
    ensures FirstGroups(Groups(nodes, n, replicas), count) <= SetOf(nodes[..length])
  {
    forall i | 0 <= i < count ensures Groups(nodes, n, replicas)[i] <= SetOf(nodes[..length]) {
      FirstCopiesInside(nodes, n, replicas, gap, length, count, i);
    }
    FirstGroupsInside(Groups(nodes, n, replicas), count, SetOf(nodes[..length]));
  }

  // ------------------------------------------------------------------ exactly when

  ghost function Rest(nodes: seq<string>, lost: seq<string>): set<string> {
    set node | node in nodes && node !in lost
  }

  /** The leaf can be read from the nodes outside a run. */
  ghost predicate ReadableWithout(f: Field<byte>, h: Hash, slots: map<Slot, Bytes>, m: Manifest, leaf: Bytes,
                                  nodes: seq<string>, lo: nat, length: nat, limit: nat)
    requires lo + length <= |nodes|
  {
    Fetched(f, h, m, StoreReader(slots), Some(Rest(nodes, nodes[lo..lo + length])), limit) == Ok(leaf)
  }

  lemma ReadableIfFew(f: Field<byte>, h: Hash, slots: map<Slot, Bytes>, m: Manifest, leaf: Bytes, p: Placement,
                      nodes: seq<string>, tier: string, lo: nat, length: nat, limit: nat, gap: nat)
    requires IsField(f) && limit >= 1 && NoRepeats(nodes)
    requires IsManifest(m, h, leaf, p, nodes, tier) && Stored(f, slots, m, leaf)
    requires IsGap(gap, nodes, p) && gap >= 1 && lo + length <= |nodes|
    requires (length + gap - 1) / gap < (p.m + 1) * p.shardReplicas
    ensures ReadableWithout(f, h, slots, m, leaf, nodes, lo, length, limit)
  {
    var run := nodes[lo..lo + length];
    RunLossSurvives(f, h, slots, m, leaf, p, nodes, tier, run, lo, Rest(nodes, run), limit, gap);
  }

  lemma UnreadableIfMany(f: Field<byte>, h: Hash, slots: map<Slot, Bytes>, m: Manifest, leaf: Bytes, p: Placement,
                         nodes: seq<string>, tier: string, length: nat, limit: nat, gap: nat)
    requires NoRepeats(nodes) && IsManifest(m, h, leaf, p, nodes, tier) && Stored(f, slots, m, leaf)
    requires IsGap(gap, nodes, p) && gap >= 1 && length <= |nodes|
    requires (p.m + 1) * p.shardReplicas <= (length + gap - 1) / gap
    ensures !ReadableWithout(f, h, slots, m, leaf, nodes, 0, length, limit)
  {
    FirstLeavesDecide(f, h, slots, m, leaf, p, nodes, tier, length, limit, gap);
    assert nodes[0..0 + length] == nodes[..length];
    assert Rest(nodes, nodes[..length]) !! SetOf(nodes[..length]);
  }

  /**
    Whichever L leaves in a row are lost, the leaf can be read from the others,
    if and only if L / (N / (n R)), rounded up, is below (m + 1) R.
   */
  lemma RunLossIff(f: Field<byte>, h: Hash, slots: map<Slot, Bytes>, m: Manifest, leaf: Bytes, p: Placement,
                   nodes: seq<string>, tier: string, length: nat, limit: nat, gap: nat)
    requires IsField(f) && limit >= 1 && NoRepeats(nodes)
    requires IsManifest(m, h, leaf, p, nodes, tier) && Stored(f, slots, m, leaf)
    requires IsGap(gap, nodes, p) && gap >= 1 && length <= |nodes|
    ensures (forall lo: nat :: lo + length <= |nodes| ==>
               ReadableWithout(f, h, slots, m, leaf, nodes, lo, length, limit))
            <==> (length + gap - 1) / gap < (p.m + 1) * p.shardReplicas
  {
    if (length + gap - 1) / gap < (p.m + 1) * p.shardReplicas {
      forall lo: nat | lo + length <= |nodes|
        ensures ReadableWithout(f, h, slots, m, leaf, nodes, lo, length, limit)
      {
        ReadableIfFew(f, h, slots, m, leaf, p, nodes, tier, lo, length, limit, gap);
      }
    } else {
      UnreadableIfMany(f, h, slots, m, leaf, p, nodes, tier, length, limit, gap);
    }
  }

  lemma FrontLossIff(f: Field<byte>, h: Hash, slots: map<Slot, Bytes>, m: Manifest, leaf: Bytes, p: Placement,
                     nodes: seq<string>, tier: string, length: nat, limit: nat, gap: nat)
    requires IsField(f) && limit >= 1 && NoRepeats(nodes)
    requires IsManifest(m, h, leaf, p, nodes, tier) && Stored(f, slots, m, leaf)
    requires IsGap(gap, nodes, p) && gap >= 1 && length <= |nodes|
    ensures ReadableWithout(f, h, slots, m, leaf, nodes, 0, length, limit)
            <==> (length + gap - 1) / gap < (p.m + 1) * p.shardReplicas
  {
    if (length + gap - 1) / gap < (p.m + 1) * p.shardReplicas {
      ReadableIfFew(f, h, slots, m, leaf, p, nodes, tier, 0, length, limit, gap);
    } else {
      UnreadableIfMany(f, h, slots, m, leaf, p, nodes, tier, length, limit, gap);
    }
  }

  /** The subtree is on the left edge of the tree. */
  predicate Leftmost(t: Tree, s: Tree) {
    t == s || (t.Group? && t.children != [] && Leftmost(t.children[0], s))
  }

  lemma {:induction false} LeftmostIsFront(t: Tree, s: Tree)
    requires Leftmost(t, s)
    ensures Leaves(s) <= Leaves(t) && Contains(t, s)
    decreases t
  {
    if t != s {
      LeftmostIsFront(t.children[0], s);
      assert Leaves(t) == Leaves(t.children[0]) + LeavesOf(t.children[1..]);
    }
  }

  /** A subtree of L leaves on the left edge, a triad or a larger group, is decisive in exactly the other case. */
  lemma LeftSubtreeIff(f: Field<byte>, h: Hash, slots: map<Slot, Bytes>, m: Manifest, leaf: Bytes, p: Placement,
                       nodes: seq<string>, tier: string, s: Tree, limit: nat, gap: nat)
    requires IsField(f) && limit >= 1 && nodes != [] && NoRepeats(nodes)
    requires IsManifest(m, h, leaf, p, nodes, tier) && Stored(f, slots, m, leaf)
    requires IsGap(gap, nodes, p) && gap >= 1 && Leftmost(Balanced(nodes), s)
    ensures Fetched(f, h, m, StoreReader(slots), Some(Rest(nodes, Leaves(s))), limit) == Ok(leaf)
            <==> (|Leaves(s)| + gap - 1) / gap < (p.m + 1) * p.shardReplicas
  {
    FrontOfMesh(nodes, s);
    FrontLossIff(f, h, slots, m, leaf, p, nodes, tier, |Leaves(s)|, limit, gap);
  }

  lemma FrontOfMesh(nodes: seq<string>, s: Tree)
    requires nodes != [] && Leftmost(Balanced(nodes), s)
    ensures |Leaves(s)| <= |nodes| && nodes[0..0 + |Leaves(s)|] == Leaves(s)
  {
    LeavesOfBalanced(nodes);
    LeftmostIsFront(Balanced(nodes), s);
  }

  /** Four fragments, any three of them enough, on four nodes: losing the first group of the tree loses the leaf. */
  lemma GroupIsDecisive(f: Field<byte>, h: Hash, slots: map<Slot, Bytes>, m: Manifest, leaf: Bytes,
                        nodes: seq<string>, tier: string, s: Tree, limit: nat)
    requires NoRepeats(nodes) && |nodes| == 4 && s == Group([Leaf(nodes[0]), Leaf(nodes[1])])
    requires IsManifest(m, h, leaf, Placement(3, 1, 1), nodes, tier) && Stored(f, slots, m, leaf)
    ensures Contains(Balanced(nodes), s)
    ensures UnavailableWithout(f, h, slots, m, SetOf(Leaves(s)), limit)
  {
    FirstGroupOfFour(nodes, s);
    FirstLeavesDecide(f, h, slots, m, leaf, Placement(3, 1, 1), nodes, tier, 2, limit, 1);
  }

  lemma FirstGroupOfFour(nodes: seq<string>, s: Tree)
    requires |nodes| == 4 && s == Group([Leaf(nodes[0]), Leaf(nodes[1])])
    ensures Contains(Balanced(nodes), s) && Leaves(s) == nodes[..2]
  {
    assert Balanced(Part(nodes, 0)) == s;
    assert Balanced(nodes).children[0] == s;
    assert Contains(Balanced(nodes).children[0], s);
    PairLeaves(nodes[0], nodes[1]);
  }

  lemma PairLeaves(a: string, b: string)
    ensures Leaves(Group([Leaf(a), Leaf(b)])) == [a, b]
  {
    var ts := [Leaf(a), Leaf(b)];
    assert ts[1..] == [Leaf(b)];
    assert LeavesOf([Leaf(b)]) == [b];
    assert LeavesOf(ts) == Leaves(ts[0]) + LeavesOf(ts[1..]);
  }
}

/**
  How far apart a placement puts the copies in the order of the tree, and so how
  many of them any subtree holds.
 */
module PlacementSpread {
  import opened Arithmetic
  import opened MeshTopology
  import opened FragmentPlacement
  import opened Common

  // ------------------------------------------------------------ slots of an id

  /** The slots the first i fragments give to id x. */
  ghost function SlotsOf(xs: seq<Point>, replicas: nat, x: Point, i: nat): seq<nat>
    requires i <= |xs|
  {
    if i == 0 then []
    else SlotsOf(xs, replicas, x, i - 1) + (if xs[i - 1] == x then Run((i - 1) * replicas, replicas) else [])
  }

  ghost function Run(from: nat, count: nat): (r: seq<nat>)
    ensures |r| == count && forall j :: 0 <= j < count ==> r[j] == from + j
  {
    seq(count, j requires 0 <= j < count => from + j)
  }

  /** The slot belongs to a fragment with this id, one of the first i. */
  ghost predicate Owns(xs: seq<Point>, replicas: nat, x: Point, i: nat, slot: nat, j: nat) {
    j < i <= |xs| && xs[j] == x && j * replicas <= slot < j * replicas + replicas
  }

  ghost predicate Owned(xs: seq<Point>, replicas: nat, x: Point, i: nat, slot: nat) {
    exists j: nat :: Owns(xs, replicas, x, i, slot, j)
  }

  lemma OwnedBelow(xs: seq<Point>, replicas: nat, x: Point, i: nat, slot: nat)
    requires Owned(xs, replicas, x, i, slot)
    ensures slot < i * replicas
  {
    var j: nat :| Owns(xs, replicas, x, i, slot, j);
    MulMonotone(j, i, replicas);
  }

  /** Different ids own different slots. */
  lemma OwnersDiffer(xs: seq<Point>, replicas: nat, x: Point, y: Point, a: nat, b: nat)
    requires Owned(xs, replicas, x, |xs|, a) && Owned(xs, replicas, y, |xs|, b) && x != y
    ensures a != b
  {
    var i: nat :| Owns(xs, replicas, x, |xs|, a, i);
    var j: nat :| Owns(xs, replicas, y, |xs|, b, j);
    if i < j {
      MulMonotone(i, j, replicas);
    } else {
      MulMonotone(j, i, replicas);
    }
  }

  /** The slots of an id ascend and are its own. */
  ghost predicate Proper(xs: seq<Point>, replicas: nat, x: Point, i: nat) {
    && i <= |xs|
    && (forall a, b :: 0 <= a < b < |SlotsOf(xs, replicas, x, i)| ==>
          SlotsOf(xs, replicas, x, i)[a] < SlotsOf(xs, replicas, x, i)[b])
    && (forall a :: 0 <= a < |SlotsOf(xs, replicas, x, i)| ==>
          Owned(xs, replicas, x, i, SlotsOf(xs, replicas, x, i)[a]))
  }

  lemma {:induction false} SlotsProper(xs: seq<Point>, replicas: nat, x: Point, i: nat)
    requires i <= |xs|
    ensures Proper(xs, replicas, x, i)
    decreases i
  {
    if i > 0 {
      var m: nat := i - 1;
      SlotsProper(xs, replicas, x, m);
      SlotsStayProper(xs, replicas, x, m);
    }
  }

  lemma SlotsStayProper(xs: seq<Point>, replicas: nat, x: Point, m: nat)
    requires m < |xs| && Proper(xs, replicas, x, m)
    ensures Proper(xs, replicas, x, m + 1)
  {
    var before, after := SlotsOf(xs, replicas, x, m), SlotsOf(xs, replicas, x, m + 1);
    var added := if xs[m] == x then Run(m * replicas, replicas) else [];
    assert after == before + added;
    forall a | 0 <= a < |before| ensures Owned(xs, replicas, x, m + 1, before[a]) && before[a] < m * replicas {
      OwnedBelow(xs, replicas, x, m, before[a]);
      var j: nat :| Owns(xs, replicas, x, m, before[a], j);
      assert Owns(xs, replicas, x, m + 1, before[a], j);
    }
    forall a | 0 <= a < |added| ensures Owned(xs, replicas, x, m + 1, added[a]) {
      assert Owns(xs, replicas, x, m + 1, added[a], m);
    }
  }

  /** The slot's node is the one at its multiple of the gap. */
  ghost predicate HoldsSlot(nodes: seq<string>, gap: nat, slot: nat, node: string) {
    var p := slot * gap;
    0 <= p < |nodes| && nodes[p] == node
  }

  /** Copies are dealt to the slots in order, each at its multiple of the gap. */
  ghost predicate AtSlots(copies: seq<string>, slots: seq<nat>, nodes: seq<string>, gap: nat) {
    |copies| == |slots| && forall a :: 0 <= a < |slots| ==> HoldsSlot(nodes, gap, slots[a], copies[a])
  }

  lemma CopiesAtSlots(nodes: seq<string>, n: nat, replicas: nat, m: nat, gap: nat)
    requires 0 < n * replicas <= |nodes| && m < n && gap == |nodes| / (n * replicas)
    ensures AtSlots(CopiesOf(nodes, n, replicas, m), Run(m * replicas, replicas), nodes, gap)
  {
    QuotientPositive(|nodes|, n * replicas);
    forall r | 0 <= r < replicas
      ensures HoldsSlot(nodes, gap, Run(m * replicas, replicas)[r], CopiesOf(nodes, n, replicas, m)[r])
    {
      SlotBelow(n, replicas, m, r);
      SlotInMesh(|nodes|, n * replicas, m * replicas + r);
    }
  }

  lemma AtSlotsConcat(a: seq<string>, s: seq<nat>, b: seq<string>, t: seq<nat>, nodes: seq<string>, gap: nat)
    requires AtSlots(a, s, nodes, gap) && AtSlots(b, t, nodes, gap)
    ensures AtSlots(a + b, s + t, nodes, gap)
  {
  }

  lemma {:induction false} DealtAtSlots(nodes: seq<string>, xs: seq<Point>, replicas: nat, x: Point, i: nat, gap: nat)
    requires 0 < |xs| * replicas <= |nodes| && i <= |xs| && gap == |nodes| / (|xs| * replicas)
    ensures AtSlots(Dealt(nodes, xs, replicas, x, i), SlotsOf(xs, replicas, x, i), nodes, gap)
    decreases i
  {
    if i > 0 {
      var m: nat := i - 1;
      DealtAtSlots(nodes, xs, replicas, x, m, gap);
      if xs[m] == x {
        CopiesAtSlots(nodes, |xs|, replicas, m, gap);
        AtSlotsConcat(Dealt(nodes, xs, replicas, x, m), SlotsOf(xs, replicas, x, m),
                      CopiesOf(nodes, |xs|, replicas, m), Run(m * replicas, replicas), nodes, gap);
      }
    }
  }

  lemma QuotientPositive(size: nat, total: nat)
    requires 0 < total <= size
    ensures size / total >= 1
  {
    var q := size / total;
    assert size == total * q + size % total;
    if q <= 0 {
      assert false;
    }
  }

  // ------------------------------------------------------------------ distance

  /** Any two copies are at least `gap` places apart in the order of the nodes. */
  ghost predicate Spread(mapping: map<Point, seq<string>>, nodes: seq<string>, gap: nat) {
    forall x, a, y, b, p, q ::
      x in mapping && y in mapping && 0 <= a < |mapping[x]| && 0 <= b < |mapping[y]| && (x != y || a != b)
      && 0 <= p < |nodes| && 0 <= q < |nodes| && nodes[p] == mapping[x][a] && nodes[q] == mapping[y][b] ==>
        p - q >= gap || q - p >= gap
  }

  lemma SlotsApart(a: nat, b: nat, gap: nat)
    requires a != b
    ensures a * gap - b * gap >= gap || b * gap - a * gap >= gap
  {
    if a < b {
      MulMonotone(a, b, gap);
    } else {
      MulMonotone(b, a, gap);
    }
  }

  lemma SlotPosition(nodes: seq<string>, gap: nat, slot: nat, node: string, p: nat)
    requires NoRepeats(nodes) && HoldsSlot(nodes, gap, slot, node) && p < |nodes| && nodes[p] == node
    ensures p == slot * gap
  {
  }

  /** The copies of every id are at its slots. */
  ghost predicate AllAtSlots(mapping: map<Point, seq<string>>, nodes: seq<string>, xs: seq<Point>, replicas: nat,
                             gap: nat)
  {
    forall x :: x in mapping ==> AtSlots(mapping[x], SlotsOf(xs, replicas, x, |xs|), nodes, gap)
  }

  /** The copies of a placement are spread over the mesh as far as its size allows. */
  lemma PlacementIsSpread(mapping: map<Point, seq<string>>, nodes: seq<string>, xs: seq<Point>, replicas: nat)
    requires NoRepeats(nodes) && 0 < |xs| * replicas <= |nodes| && PlacedUpTo(mapping, nodes, xs, replicas, |xs|)
    ensures Spread(mapping, nodes, |nodes| / (|xs| * replicas))
  {
    var gap := |nodes| / (|xs| * replicas);
    QuotientPositive(|nodes|, |xs| * replicas);
    forall x | x in mapping ensures AtSlots(mapping[x], SlotsOf(xs, replicas, x, |xs|), nodes, gap) {
      DealtAtSlots(nodes, xs, replicas, x, |xs|, gap);
    }
    SlotsSpread(mapping, nodes, xs, replicas, gap);
  }

  lemma SlotsSpread(mapping: map<Point, seq<string>>, nodes: seq<string>, xs: seq<Point>, replicas: nat, gap: nat)
    requires NoRepeats(nodes) && AllAtSlots(mapping, nodes, xs, replicas, gap)
    ensures Spread(mapping, nodes, gap)
  {
    forall x, a, y, b, p, q |
      x in mapping && y in mapping && 0 <= a < |mapping[x]| && 0 <= b < |mapping[y]| && (x != y || a != b)
      && 0 <= p < |nodes| && 0 <= q < |nodes| && nodes[p] == mapping[x][a] && nodes[q] == mapping[y][b]
      ensures p - q >= gap || q - p >= gap
    {
      assert AtSlots(mapping[x], SlotsOf(xs, replicas, x, |xs|), nodes, gap);
      assert AtSlots(mapping[y], SlotsOf(xs, replicas, y, |xs|), nodes, gap);
      CopiesApart(nodes, xs, replicas, gap, x, a, y, b, p, q);
    }
  }

  lemma CopiesApart(nodes: seq<string>, xs: seq<Point>, replicas: nat, gap: nat, x: Point, a: nat, y: Point, b: nat,
                    p: nat, q: nat)
    requires NoRepeats(nodes) && p < |nodes| && q < |nodes| && (x != y || a != b)
    requires a < |SlotsOf(xs, replicas, x, |xs|)| && b < |SlotsOf(xs, replicas, y, |xs|)|
    requires HoldsSlot(nodes, gap, SlotsOf(xs, replicas, x, |xs|)[a], nodes[p])
    requires HoldsSlot(nodes, gap, SlotsOf(xs, replicas, y, |xs|)[b], nodes[q])
    ensures p - q >= gap || q - p >= gap
  {
    var s, t := SlotsOf(xs, replicas, x, |xs|)[a], SlotsOf(xs, replicas, y, |xs|)[b];
    SlotPosition(nodes, gap, s, nodes[p], p);
    SlotPosition(nodes, gap, t, nodes[q], q);
    SlotsDistinct(xs, replicas, x, a, y, b);
    SlotsApart(s, t, gap);
  }

  lemma SlotsDistinct(xs: seq<Point>, replicas: nat, x: Point, a: nat, y: Point, b: nat)
    requires a < |SlotsOf(xs, replicas, x, |xs|)| && b < |SlotsOf(xs, replicas, y, |xs|)| && (x != y || a != b)
    ensures SlotsOf(xs, replicas, x, |xs|)[a] != SlotsOf(xs, replicas, y, |xs|)[b]
  {
    SlotsProper(xs, replicas, x, |xs|);
    SlotsProper(xs, replicas, y, |xs|);
    if x != y {
      OwnersDiffer(xs, replicas, x, y, SlotsOf(xs, replicas, x, |xs|)[a], SlotsOf(xs, replicas, y, |xs|)[b]);
    }
  }

  // --------------------------------------------------------------- runs of nodes

  ghost predicate HoldsCopy(mapping: map<Point, seq<string>>, node: string) {
    exists x :: x in mapping && node in mapping[x]
  }

  /** The places of a run of nodes that hold a copy. */
  ghost function Holding(mapping: map<Point, seq<string>>, nodes: seq<string>, lo: nat, hi: nat): set<int>
    requires lo <= hi <= |nodes|
  {
    set p | lo <= p < hi && HoldsCopy(mapping, nodes[p])
  }

  ghost predicate FarApart(places: set<int>, gap: nat) {
    forall p, q :: p in places && q in places && p != q ==> p - q >= gap || q - p >= gap
  }

  /** Places at least `gap` apart, counted. */
  lemma {:induction false} FarApartCount(places: set<int>, lo: int, hi: int, gap: nat)
    requires lo <= hi && FarApart(places, gap) && forall p :: p in places ==> lo <= p < hi
    ensures places != {} ==> Repeated(|places| - 1, gap) < hi - lo
    decreases |places|
  {
    if places != {} {
      var last := Last(places);
      var rest := places - {last};
      assert |places| == |rest| + 1;
      forall p | p in rest ensures lo <= p < last - gap + 1 {
        assert last - p >= gap;
      }
      if rest != {} {
        var p := Member(rest);
        FarApartCount(rest, lo, last - gap + 1, gap);
      }
    }
  }

  ghost function Last(places: set<int>): (last: int)
    requires places != {}
    ensures last in places && forall p :: p in places ==> p <= last
  {
    var p := Member(places);
    var rest := places - {p};
    if rest == {} then
      assert places == {p};
      p
    else
      var q := Last(rest);
      assert places == rest + {p};
      if p > q then p else q
  }

  /** A run of L nodes in a row holds at most L / gap copies, rounded up. */
  lemma RunHoldsFew(mapping: map<Point, seq<string>>, nodes: seq<string>, gap: nat, lo: nat, length: nat)
    requires NoRepeats(nodes) && Spread(mapping, nodes, gap) && gap >= 1 && lo + length <= |nodes|
    ensures |Holding(mapping, nodes, lo, lo + length)| <= (length + gap - 1) / gap
  {
    var places := Holding(mapping, nodes, lo, lo + length);
    forall p, q | p in places && q in places && p != q ensures p - q >= gap || q - p >= gap {
      HoldersApart(mapping, nodes, gap, p, q);
    }
    FarApartCount(places, lo, lo + length, gap);
    if places != {} {
      RepeatedIsProduct(|places| - 1, gap);
      RoundedUp(|places|, length, gap);
    } else {
      RoundedUpNonNegative(length, gap);
    }
  }

  lemma HoldersApart(mapping: map<Point, seq<string>>, nodes: seq<string>, gap: nat, p: nat, q: nat)
    requires NoRepeats(nodes) && Spread(mapping, nodes, gap) && p < |nodes| && q < |nodes| && p != q
    requires HoldsCopy(mapping, nodes[p]) && HoldsCopy(mapping, nodes[q])
    ensures p - q >= gap || q - p >= gap
  {
    var x :| x in mapping && nodes[p] in mapping[x];
    var y :| y in mapping && nodes[q] in mapping[y];
    var a :| 0 <= a < |mapping[x]| && mapping[x][a] == nodes[p];
    var b :| 0 <= b < |mapping[y]| && mapping[y][b] == nodes[q];
    assert nodes[p] != nodes[q];
  }

  lemma RoundedUp(count: nat, length: nat, gap: nat)
    requires count >= 1 && gap >= 1 && (count - 1) * gap < length
    ensures count <= (length + gap - 1) / gap
  {
    var q := (length + gap - 1) / gap;
    assert length + gap - 1 == gap * q + (length + gap - 1) % gap;
    MulSucc(count - 1, gap);
    if q < count {
      MulMonotone(q, count, gap);
    }
  }

  lemma RoundedUpNonNegative(length: nat, gap: nat)
    requires gap >= 1
    ensures (length + gap - 1) / gap >= 0
  {
  }

  // ------------------------------------------------------------------- subtrees

  predicate Contains(t: Tree, s: Tree) {
    t == s || (t.Group? && exists i :: 0 <= i < |t.children| && Contains(t.children[i], s))
  }

  lemma {:induction false} ChildIsRun(ts: seq<Tree>, i: nat) returns (lo: nat)
    requires i < |ts|
    ensures lo + |Leaves(ts[i])| <= |LeavesOf(ts)| && LeavesOf(ts)[lo..lo + |Leaves(ts[i])|] == Leaves(ts[i])
    decreases i
  {
    var first, others := Leaves(ts[0]), LeavesOf(ts[1..]);
    assert LeavesOf(ts) == first + others;
    if i == 0 {
      lo := 0;
    } else {
      var at := ChildIsRun(ts[1..], i - 1);
      lo := |first| + at;
      SliceAfter(first, others, at, |Leaves(ts[i])|);
    }
  }

  lemma SliceAfter(a: seq<string>, b: seq<string>, lo: nat, n: nat)
    requires lo + n <= |b|
    ensures (a + b)[|a| + lo..|a| + lo + n] == b[lo..lo + n]
  {
  }

  /** The leaves of a subtree are in a row. */
  lemma {:induction false} SubtreeIsRun(t: Tree, s: Tree) returns (lo: nat)
    requires Contains(t, s)
    ensures lo + |Leaves(s)| <= |Leaves(t)| && Leaves(t)[lo..lo + |Leaves(s)|] == Leaves(s)
    decreases t
  {
    if t == s {
      lo := 0;
    } else {
      var i :| 0 <= i < |t.children| && Contains(t.children[i], s);
      var inner := SubtreeIsRun(t.children[i], s);
      var outer := ChildIsRun(t.children, i);
      lo := outer + inner;
      RunOfRun(Leaves(t), outer, |Leaves(t.children[i])|, inner, |Leaves(s)|);
    }
  }

  lemma RunOfRun(s: seq<string>, a: nat, m: nat, b: nat, n: nat)
    requires a + m <= |s| && b + n <= m
    ensures s[a..a + m][b..b + n] == s[a + b..a + b + n]
  {
    var u := s[a..a + m];
    assert forall i :: 0 <= i < m ==> u[i] == s[a + i];
  }

  /** Those of some nodes that hold a copy. */
  ghost function Holders(mapping: map<Point, seq<string>>, some: seq<string>): set<string> {
    set node | node in some && HoldsCopy(mapping, node)
  }

  lemma {:induction false} ImageSize(places: set<int>, nodes: seq<string>, image: set<string>)
    requires forall p :: p in places ==> 0 <= p < |nodes|
    requires forall node :: node in image ==> exists p :: p in places && nodes[p] == node
    ensures |image| <= |places|
    decreases |places|
  {
    if places != {} {
      var p := Member(places);
      ImageSize(places - {p}, nodes, image - {nodes[p]});
      if nodes[p] in image {
        assert image == (image - {nodes[p]}) + {nodes[p]};
      } else {
        assert image - {nodes[p]} == image;
      }
      assert |places| == |places - {p}| + 1;
    } else {
      assert forall node :: node !in image;
    }
  }

  /**
    On N distinct nodes, a subtree of L leaves holds at most L / (N / (n R))
    of the n R copies, rounded up.
   */
  lemma SubtreeHoldsFew(mapping: map<Point, seq<string>>, nodes: seq<string>, xs: seq<Point>, replicas: nat, s: Tree,
                        gap: nat)
    requires NoRepeats(nodes) && 0 < |xs| * replicas <= |nodes| && PlacedUpTo(mapping, nodes, xs, replicas, |xs|)
    requires Contains(Balanced(nodes), s) && gap == |nodes| / (|xs| * replicas)
    ensures gap >= 1 && |Holders(mapping, Leaves(s))| <= (|Leaves(s)| + gap - 1) / gap
  {
    SpreadByGap(mapping, nodes, xs, replicas, gap);
    var lo := SubtreeInMesh(nodes, s);
    FewHolders(mapping, nodes, gap, Leaves(s), lo);
  }

  lemma SpreadByGap(mapping: map<Point, seq<string>>, nodes: seq<string>, xs: seq<Point>, replicas: nat, gap: nat)
    requires NoRepeats(nodes) && 0 < |xs| * replicas <= |nodes| && PlacedUpTo(mapping, nodes, xs, replicas, |xs|)
    requires gap == |nodes| / (|xs| * replicas)
    ensures gap >= 1 && Spread(mapping, nodes, gap)
  {
    QuotientPositive(|nodes|, |xs| * replicas);
    PlacementIsSpread(mapping, nodes, xs, replicas);
  }

  lemma FewHolders(mapping: map<Point, seq<string>>, nodes: seq<string>, gap: nat, run: seq<string>, lo: nat)
    requires NoRepeats(nodes) && Spread(mapping, nodes, gap) && gap >= 1
    requires lo + |run| <= |nodes| && nodes[lo..lo + |run|] == run
    ensures |Holders(mapping, run)| <= (|run| + gap - 1) / gap
  {
    RunHoldsFew(mapping, nodes, gap, lo, |run|);
    HoldersInRun(mapping, nodes, run, lo);
  }

  lemma SubtreeInMesh(nodes: seq<string>, s: Tree) returns (lo: nat)
    requires nodes != [] && Contains(Balanced(nodes), s)
    ensures lo + |Leaves(s)| <= |nodes| && nodes[lo..lo + |Leaves(s)|] == Leaves(s)
  {
    LeavesOfBalanced(nodes);
    lo := SubtreeIsRun(Balanced(nodes), s);
  }

  lemma HoldersInRun(mapping: map<Point, seq<string>>, nodes: seq<string>, run: seq<string>, lo: nat)
    requires lo + |run| <= |nodes| && nodes[lo..lo + |run|] == run
    ensures |Holders(mapping, run)| <= |Holding(mapping, nodes, lo, lo + |run|)|
  {
    var hi := lo + |run|;
    forall node | node in Holders(mapping, run)
      ensures exists p :: p in Holding(mapping, nodes, lo, hi) && nodes[p] == node
    {
      var j :| 0 <= j < |run| && run[j] == node;
      assert nodes[lo..hi][j] == nodes[lo + j];
      assert lo + j in Holding(mapping, nodes, lo, hi);
    }
    ImageSize(Holding(mapping, nodes, lo, hi), nodes, Holders(mapping, run));
  }
}

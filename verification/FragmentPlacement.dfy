/**
  Where the copies of a leaf's fragments go: one slot counter strides over the
  mesh in tree order, so every copy has a node of its own.
 */
module FragmentPlacement {
  import opened Arithmetic
  import opened MeshTopology
  import opened Common

  /** The distance between consecutive slots. */
  function Stride(size: nat, total: nat): (s: nat)
    requires 0 < total <= size
    ensures s >= 1
  {
    var q := size / total;
    if q > 1 then q else 1
  }

  lemma StrideFits(size: nat, total: nat)
    requires 0 < total <= size
    ensures total * Stride(size, total) <= size
  {
    var q := size / total;
    assert size == total * q + size % total;
    if q == 0 {
      assert false;
    }
  }

  lemma SlotInMesh(size: nat, total: nat, slot: nat)
    requires 0 < total <= size && slot < total
    ensures slot * Stride(size, total) < size
    ensures slot * Stride(size, total) % size == slot * Stride(size, total)
  {
    StrideFits(size, total);
    MulMonotone(slot, total, Stride(size, total));
    DivModUnique(slot * Stride(size, total), size, 0, slot * Stride(size, total));
  }

  lemma SlotBelow(n: nat, replicas: nat, i: nat, r: nat)
    requires i < n && r < replicas
    ensures i * replicas + r < n * replicas
  {
    MulMonotone(i, n, replicas);
  }

  /** The node that holds copy r of fragment i. */
  function NodeOf(nodes: seq<string>, n: nat, replicas: nat, i: nat, r: nat): (node: string)
    requires i < n && r < replicas && n * replicas <= |nodes|
    ensures node in nodes
  {
    SlotBelow(n, replicas, i, r);
    SlotInMesh(|nodes|, n * replicas, i * replicas + r);
    nodes[(i * replicas + r) * Stride(|nodes|, n * replicas)]
  }

  function CopiesOf(nodes: seq<string>, n: nat, replicas: nat, i: nat): (copies: seq<string>)
    requires i < n && n * replicas <= |nodes|
    ensures |copies| == replicas
  {
    seq(replicas, r requires 0 <= r < replicas => NodeOf(nodes, n, replicas, i, r))
  }

  /** The copies dealt to id x by the first i fragments; an id that repeats collects the copies of each. */
  ghost function Dealt(nodes: seq<string>, xs: seq<Point>, replicas: nat, x: Point, i: nat): seq<string>
    requires |xs| * replicas <= |nodes| && i <= |xs|
  {
    if i == 0 then []
    else Dealt(nodes, xs, replicas, x, i - 1) + (if xs[i - 1] == x then CopiesOf(nodes, |xs|, replicas, i - 1) else [])
  }

  /** The first i fragments have their copies placed. */
  ghost predicate PlacedUpTo(mapping: map<Point, seq<string>>, nodes: seq<string>, xs: seq<Point>, replicas: nat,
                             i: nat)
  {
    && |xs| * replicas <= |nodes| && i <= |xs|
    && (forall x :: x in mapping <==> x in xs)
    && (forall x :: x in mapping ==> mapping[x] == Dealt(nodes, xs, replicas, x, i))
  }

  /** What `_place` gives on a mesh with nodes. */
  ghost predicate Placed(r: Result<map<Point, seq<string>>>, nodes: seq<string>, xs: seq<Point>, replicas: nat) {
    var total := |xs| * replicas;
    if total > |nodes| then r == Err(ValueError)
    else if total == 0 then r == Err(ZeroDivision)
    else r.Ok? && PlacedUpTo(r.value, nodes, xs, replicas, |xs|)
  }

  method Place(nodes: seq<string>, xs: seq<Point>, replicas: nat) returns (r: Result<map<Point, seq<string>>>)
    ensures if nodes == [] then r == Err(ValueError) else Placed(r, nodes, xs, replicas)
  {
    var tree := BuildTree(nodes);
    if tree.Err? {
      return Err(tree.error);
    }
    var ordered := CollectLeaves(tree.value);
    LeavesOfBalanced(nodes);
    r := PlaceOn(ordered, xs, replicas);
  }

  method PlaceOn(ordered: seq<string>, xs: seq<Point>, replicas: nat) returns (r: Result<map<Point, seq<string>>>)
    ensures Placed(r, ordered, xs, replicas)
  {
    var total := |xs| * replicas;
    if total > |ordered| {
      return Err(ValueError);
    }
    if total == 0 {
      return Err(ZeroDivision);
    }
    var mapping := PlaceAll(ordered, xs, replicas, Stride(|ordered|, total));
    r := Ok(mapping);
  }

  /** Deal the slots out, fragment by fragment. */
  method PlaceAll(ordered: seq<string>, xs: seq<Point>, replicas: nat, stride: nat)
    returns (mapping: map<Point, seq<string>>)
    requires 0 < |xs| * replicas <= |ordered| && stride == Stride(|ordered|, |xs| * replicas)
    ensures PlacedUpTo(mapping, ordered, xs, replicas, |xs|)
  {
    mapping := map x: Point | x in xs :: [];
    var slot: nat := 0;
    for i := 0 to |xs|
      invariant slot == i * replicas
      invariant PlacedUpTo(mapping, ordered, xs, replicas, i)
    {
      mapping, slot := PlaceNext(mapping, ordered, xs, replicas, stride, i, slot);
    }
  }

  lemma PlacedOneMore(mapping: map<Point, seq<string>>, nodes: seq<string>, xs: seq<Point>, replicas: nat, i: nat)
    requires i < |xs| && PlacedUpTo(mapping, nodes, xs, replicas, i)
    ensures PlacedUpTo(mapping[xs[i] := mapping[xs[i]] + CopiesOf(nodes, |xs|, replicas, i)],
                       nodes, xs, replicas, i + 1)
  {
    var mapping' := mapping[xs[i] := mapping[xs[i]] + CopiesOf(nodes, |xs|, replicas, i)];
    forall x | x in mapping' ensures mapping'[x] == Dealt(nodes, xs, replicas, x, i + 1) {
      assert mapping[x] == Dealt(nodes, xs, replicas, x, i);
      assert mapping[x] + [] == mapping[x];
    }
  }

  method PlaceNext(mapping: map<Point, seq<string>>, ordered: seq<string>, xs: seq<Point>, replicas: nat, stride: nat,
                   i: nat, slot: nat)
    returns (mapping': map<Point, seq<string>>, slot': nat)
    requires 0 < |xs| * replicas <= |ordered| && stride == Stride(|ordered|, |xs| * replicas)
    requires i < |xs| && slot == i * replicas && PlacedUpTo(mapping, ordered, xs, replicas, i)
    ensures PlacedUpTo(mapping', ordered, xs, replicas, i + 1) && slot' == (i + 1) * replicas
  {
    var copies := PlaceOne(ordered, |xs|, replicas, i, slot, stride);
    PlacedOneMore(mapping, ordered, xs, replicas, i);
    mapping' := mapping[xs[i] := mapping[xs[i]] + copies];
    MulSucc(i, replicas);
    slot' := slot + replicas;
  }

  /** The copies of one fragment, advancing the slot counter once per copy. */
  method PlaceOne(ordered: seq<string>, n: nat, replicas: nat, i: nat, slot0: nat, stride: nat)
    returns (copies: seq<string>)
    requires i < n && 0 < n * replicas <= |ordered|
    requires slot0 == i * replicas && stride == Stride(|ordered|, n * replicas)
    ensures copies == CopiesOf(ordered, n, replicas, i)
  {
    copies := [];
    var slot := slot0;
    for r := 0 to replicas
      invariant slot == slot0 + r
      invariant copies == CopiesOf(ordered, n, replicas, i)[..r]
    {
      SlotBelow(n, replicas, i, r);
      SlotInMesh(|ordered|, n * replicas, slot);
      copies := copies + [ordered[(slot * stride) % |ordered|]];
      slot := slot + 1;
    }
  }

  /** With distinct ids every fragment has its own copies and no others. */
  ghost predicate IsPlacement(mapping: map<Point, seq<string>>, nodes: seq<string>, xs: seq<Point>, replicas: nat) {
    && |xs| * replicas <= |nodes|
    && (forall x :: x in mapping <==> x in xs)
    && (forall i :: 0 <= i < |xs| ==> mapping[xs[i]] == CopiesOf(nodes, |xs|, replicas, i))
  }

  lemma {:induction false} DealtOnce(nodes: seq<string>, xs: seq<Point>, replicas: nat, j: nat, i: nat)
    requires NoRepeats(xs) && |xs| * replicas <= |nodes| && j < |xs| && i <= |xs|
    ensures Dealt(nodes, xs, replicas, xs[j], i) == if j < i then CopiesOf(nodes, |xs|, replicas, j) else []
    decreases i
  {
    if i > 0 {
      DealtOnce(nodes, xs, replicas, j, i - 1);
      var before := Dealt(nodes, xs, replicas, xs[j], i - 1);
      assert before + [] == before;
    }
  }

  lemma DistinctIdsPlaced(mapping: map<Point, seq<string>>, nodes: seq<string>, xs: seq<Point>, replicas: nat)
    requires NoRepeats(xs) && PlacedUpTo(mapping, nodes, xs, replicas, |xs|)
    ensures IsPlacement(mapping, nodes, xs, replicas)
  {
    forall i | 0 <= i < |xs| ensures mapping[xs[i]] == CopiesOf(nodes, |xs|, replicas, i) {
      assert xs[i] in mapping;
      DealtOnce(nodes, xs, replicas, i, |xs|);
    }
  }

  // ----------------------------------------------------------- distinct nodes

  lemma {:induction false} SlotsDiffer(a: nat, b: nat, stride: nat)
    requires a < b && stride >= 1
    ensures a * stride < b * stride
  {
    MulMonotone(a, b, stride);
  }

  /** Different copies, of the same or of different fragments, are on different nodes. */
  lemma CopiesDistinct(nodes: seq<string>, n: nat, replicas: nat, i: nat, r: nat, j: nat, s: nat)
    requires NoRepeats(nodes) && n * replicas <= |nodes|
    requires i < n && j < n && r < replicas && s < replicas && (i != j || r != s)
    ensures NodeOf(nodes, n, replicas, i, r) != NodeOf(nodes, n, replicas, j, s)
  {
    var a, b := i * replicas + r, j * replicas + s;
    if i < j {
      MulMonotone(i, j, replicas);
    } else if j < i {
      MulMonotone(j, i, replicas);
    }
    SlotBelow(n, replicas, i, r);
    SlotBelow(n, replicas, j, s);
    var stride := Stride(|nodes|, n * replicas);
    SlotInMesh(|nodes|, n * replicas, a);
    SlotInMesh(|nodes|, n * replicas, b);
    if a < b {
      SlotsDiffer(a, b, stride);
    } else {
      SlotsDiffer(b, a, stride);
    }
  }

  // --------------------------------------------------------- seizing nodes

  /** Groups of nodes, each of the same size, no two sharing a node. */
  ghost predicate DisjointGroups(groups: seq<set<string>>, size: nat) {
    && (forall i :: 0 <= i < |groups| ==> |groups[i]| == size)
    && (forall i, j :: 0 <= i < j < |groups| ==> groups[i] !! groups[j])
  }

  /** How many of the first m groups lie wholly inside the seized set. */
  ghost function LostCount(groups: seq<set<string>>, seized: set<string>, m: nat): (c: nat)
    requires m <= |groups|
    ensures c <= m
  {
    if m == 0 then 0
    else LostCount(groups, seized, m - 1) + (if groups[m - 1] <= seized then 1 else 0)
  }

  /** The nodes of the lost ones among the first m groups. */
  ghost function LostNodes(groups: seq<set<string>>, seized: set<string>, m: nat): set<string>
    requires m <= |groups|
  {
    if m == 0 then {}
    else LostNodes(groups, seized, m - 1) + (if groups[m - 1] <= seized then groups[m - 1] else {})
  }

  lemma {:induction false} LostNodesApart(groups: seq<set<string>>, size: nat, seized: set<string>, m: nat, i: nat)
    requires DisjointGroups(groups, size) && m <= i < |groups|
    ensures LostNodes(groups, seized, m) !! groups[i]
    decreases m
  {
    if m > 0 {
      LostNodesApart(groups, size, seized, m - 1, i);
    }
  }

  lemma DisjointSize(a: set<string>, b: set<string>)
    requires a !! b
    ensures |a + b| == |a| + |b|
  {
  }

  lemma {:induction false} LostNodesSeized(groups: seq<set<string>>, seized: set<string>, m: nat)
    requires m <= |groups|
    ensures LostNodes(groups, seized, m) <= seized
    decreases m
  {
    if m > 0 {
      LostNodesSeized(groups, seized, m - 1);
    }
  }

  lemma OneMoreLost(lost: set<string>, group: set<string>, count: nat, size: nat)
    requires lost !! group && |lost| == Repeated(count, size) && |group| == size
    ensures |lost + group| == Repeated(count + 1, size)
  {
    DisjointSize(lost, group);
  }

  lemma GroupHasSize(groups: seq<set<string>>, size: nat, i: nat)
    requires DisjointGroups(groups, size) && i < |groups|
    ensures |groups[i]| == size
  {
  }

  /** Each lost group costs the adversary `size` nodes of its own. */
  lemma {:induction false} LossCost(groups: seq<set<string>>, size: nat, seized: set<string>, m: nat)
    requires DisjointGroups(groups, size) && m <= |groups|
    ensures |LostNodes(groups, seized, m)| == Repeated(LostCount(groups, seized, m), size)
    decreases m
  {
    if m > 0 {
      var l: nat := m - 1;
      LossCost(groups, size, seized, l);
      if groups[l] <= seized {
        LostNodesApart(groups, size, seized, l, l);
        GroupHasSize(groups, size, l);
        OneMoreLost(LostNodes(groups, seized, l), groups[l], LostCount(groups, seized, l), size);
      } else {
        assert LostNodes(groups, seized, l) + {} == LostNodes(groups, seized, l);
      }
    }
  }

  /** Seizing fewer than (spare + 1) * size nodes loses at most `spare` groups. */
  lemma FewLost(groups: seq<set<string>>, size: nat, spare: nat, seized: set<string>)
    requires DisjointGroups(groups, size) && |seized| < (spare + 1) * size
    ensures LostCount(groups, seized, |groups|) <= spare
  {
    LossCost(groups, size, seized, |groups|);
    LostNodesSeized(groups, seized, |groups|);
    SubsetSize(LostNodes(groups, seized, |groups|), seized);
    FewerMultiples(LostCount(groups, seized, |groups|), spare, size, |seized|);
  }

  /** The nodes of each fragment of a placement. */
  ghost function Groups(nodes: seq<string>, n: nat, replicas: nat): (groups: seq<set<string>>)
    requires n * replicas <= |nodes|
    ensures |groups| == n
  {
    seq(n, i requires 0 <= i < n => SetOf(CopiesOf(nodes, n, replicas, i)))
  }

  lemma CopiesNoRepeats(nodes: seq<string>, n: nat, replicas: nat, i: nat)
    requires NoRepeats(nodes) && i < n && n * replicas <= |nodes|
    ensures |SetOf(CopiesOf(nodes, n, replicas, i))| == replicas
  {
    forall r, s | 0 <= r < s < replicas
      ensures CopiesOf(nodes, n, replicas, i)[r] != CopiesOf(nodes, n, replicas, i)[s]
    {
      CopiesDistinct(nodes, n, replicas, i, r, i, s);
    }
    SetOfSize(CopiesOf(nodes, n, replicas, i));
  }

  /** On a mesh of distinct nodes, the n * replicas copies are on n * replicas different nodes. */
  lemma GroupsDisjoint(nodes: seq<string>, n: nat, replicas: nat)
    requires NoRepeats(nodes) && n * replicas <= |nodes|
    ensures DisjointGroups(Groups(nodes, n, replicas), replicas)
  {
    var groups := Groups(nodes, n, replicas);
    forall i | 0 <= i < n ensures |groups[i]| == replicas {
      CopiesNoRepeats(nodes, n, replicas, i);
    }
    forall i, j | 0 <= i < j < n ensures groups[i] !! groups[j] {
      var a, b := CopiesOf(nodes, n, replicas, i), CopiesOf(nodes, n, replicas, j);
      forall r, s | 0 <= r < replicas && 0 <= s < replicas ensures a[r] != b[s] {
        CopiesDistinct(nodes, n, replicas, i, r, j, s);
      }
    }
  }

  lemma CopiesAreNodes(nodes: seq<string>, n: nat, replicas: nat, i: nat, node: string)
    requires i < n && n * replicas <= |nodes| && node in CopiesOf(nodes, n, replicas, i)
    ensures node in nodes
  {
    var copies := CopiesOf(nodes, n, replicas, i);
    var r :| 0 <= r < |copies| && copies[r] == node;
  }
}

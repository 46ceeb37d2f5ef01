/**
  The k-mesh: backends in a balanced ternary tree, with one rule for leadership
  and one for health applied at every level.
 */
module MeshTopology {
  import opened Common

  datatype Tree = Leaf(name: string) | Group(children: seq<Tree>)

  // ----------------------------------------------------------------- construction

  /** The size of part i when n nodes are split three ways. */
  function PartSize(n: nat, i: nat): nat {
    n / 3 + (if i < n % 3 then 1 else 0)
  }

  /** Up to three contiguous parts, as equal as possible, empty ones dropped. */
  method Split3(nodes: seq<string>) returns (parts: seq<seq<string>>)
    ensures parts == Parts(nodes)
  {
    var n := |nodes|;
    var idx := 0;
    parts := [];
    for i := 0 to 3
      invariant idx == if i == 0 then 0 else if i == 1 then PartSize(n, 0)
                       else if i == 2 then PartSize(n, 0) + PartSize(n, 1) else n
      invariant parts == PartsBefore(nodes, i)
    {
      var s := PartSize(n, i);
      if s != 0 {
        assert nodes[idx..idx + s] == Part(nodes, i);
        parts := parts + [nodes[idx..idx + s]];
        idx := idx + s;
      }
    }
  }

  function Part(nodes: seq<string>, i: nat): seq<string>
    requires i < 3
  {
    var n := |nodes|;
    if i == 0 then nodes[..PartSize(n, 0)]
    else if i == 1 then nodes[PartSize(n, 0)..PartSize(n, 0) + PartSize(n, 1)]
    else nodes[PartSize(n, 0) + PartSize(n, 1)..]
  }

  function PartsBefore(nodes: seq<string>, i: nat): seq<seq<string>>
    requires i <= 3
  {
    if i == 0 then []
    else PartsBefore(nodes, i - 1) + (if PartSize(|nodes|, i - 1) == 0 then [] else [Part(nodes, i - 1)])
  }

  function Parts(nodes: seq<string>): (parts: seq<seq<string>>)
  {
    PartsBefore(nodes, 3)
  }

  lemma PartsOfLarge(nodes: seq<string>)
    requires |nodes| > 3
    ensures Parts(nodes) == [Part(nodes, 0), Part(nodes, 1), Part(nodes, 2)]
    ensures Part(nodes, 0) + Part(nodes, 1) + Part(nodes, 2) == nodes
    ensures forall i :: 0 <= i < 3 ==> 0 < |Part(nodes, i)| < |nodes|
    ensures forall i :: 0 <= i < 3 ==> |Part(nodes, i)| == PartSize(|nodes|, i)
  {
    assert PartsBefore(nodes, 1) == [Part(nodes, 0)];
    assert PartsBefore(nodes, 2) == [Part(nodes, 0), Part(nodes, 1)];
  }

  /** The balanced ternary tree over a nonempty mesh. */
  function Balanced(nodes: seq<string>): (t: Tree)
    requires nodes != []
    ensures t.Group?
    decreases |nodes|
  {
    if |nodes| <= 3 then Group(seq(|nodes|, i requires 0 <= i < |nodes| => Leaf(nodes[i])))
    else
      PartsOfLarge(nodes);
      Group([Balanced(Part(nodes, 0)), Balanced(Part(nodes, 1)), Balanced(Part(nodes, 2))])
  }

  function BuildTree(nodes: seq<string>): Result<Tree> {
    if nodes == [] then Err(ValueError) else Ok(Balanced(nodes))
  }

  // ----------------------------------------------------------------------- leaves

  function Leaves(t: Tree): seq<string>
    decreases t, 1
  {
    match t
    case Leaf(name) => [name]
    case Group(children) => LeavesOf(children)
  }

  function LeavesOf(ts: seq<Tree>): seq<string>
    decreases ts, 0
  {
    if ts == [] then [] else Leaves(ts[0]) + LeavesOf(ts[1..])
  }

  /** The accumulation loop over the children. */
  method CollectLeaves(t: Tree) returns (out: seq<string>)
    ensures out == Leaves(t)
    decreases t
  {
    match t
    case Leaf(name) => return [name];
    case Group(children) =>
      out := [];
      for i := 0 to |children|
        invariant out + LeavesOf(children[i..]) == LeavesOf(children)
      {
        var more := CollectLeaves(children[i]);
        assert children[i..][1..] == children[i + 1..];
        assert out + (more + LeavesOf(children[i + 1..])) == (out + more) + LeavesOf(children[i + 1..]);
        out := out + more;
      }
      assert children[|children|..] == [];
      assert out + [] == out;
  }

  lemma {:induction false} LeavesOfLeaves(nodes: seq<string>)
    ensures LeavesOf(seq(|nodes|, i requires 0 <= i < |nodes| => Leaf(nodes[i]))) == nodes
  {
    if nodes != [] {
      var ts := seq(|nodes|, i requires 0 <= i < |nodes| => Leaf(nodes[i]));
      var rest := nodes[1..];
      assert ts[1..] == seq(|rest|, i requires 0 <= i < |rest| => Leaf(rest[i]));
      LeavesOfLeaves(rest);
      assert nodes == [nodes[0]] + rest;
    }
  }

  lemma LeavesOfThree(a: Tree, b: Tree, c: Tree)
    ensures LeavesOf([a, b, c]) == Leaves(a) + Leaves(b) + Leaves(c)
  {
    LeavesFirst(a, [b, c]);
    LeavesFirst(b, [c]);
    LeavesFirst(c, []);
    assert [a, b, c] == [a] + [b, c] && [b, c] == [b] + [c] && [c] == [c] + [];
  }

  lemma LeavesFirst(t: Tree, ts: seq<Tree>)
    ensures LeavesOf([t] + ts) == Leaves(t) + LeavesOf(ts)
  {
    assert ([t] + ts)[1..] == ts;
  }

  /** Splitting and flattening keep every backend, once, in order. */
  lemma {:induction false} LeavesOfBalanced(nodes: seq<string>)
    requires nodes != []
    ensures Leaves(Balanced(nodes)) == nodes
    decreases |nodes|
  {
    if |nodes| <= 3 {
      LeavesOfLeaves(nodes);
    } else {
      PartsOfLarge(nodes);
      LeavesOfBalanced(Part(nodes, 0));
      LeavesOfBalanced(Part(nodes, 1));
      LeavesOfBalanced(Part(nodes, 2));
      LeavesOfThree(Balanced(Part(nodes, 0)), Balanced(Part(nodes, 1)), Balanced(Part(nodes, 2)));
    }
  }

  // ----------------------------------------------------------------------- health

  function Quorum(c: nat): nat {
    c / 2 + 1
  }

  predicate Healthy(t: Tree, up: set<string>)
    decreases t, 1
  {
    match t
    case Leaf(name) => name in up
    case Group(children) => HealthyCount(children, up) >= Quorum(|children|)
  }

  function HealthyCount(ts: seq<Tree>, up: set<string>): (n: nat)
    decreases ts, 0
  {
    if ts == [] then 0 else (if Healthy(ts[0], up) then 1 else 0) + HealthyCount(ts[1..], up)
  }

  /** More nodes up never makes the mesh unhealthy. */
  lemma {:induction false} HealthMonotone(t: Tree, up: set<string>, more: set<string>)
    requires up <= more && Healthy(t, up)
    ensures Healthy(t, more)
    decreases t, 1
  {
    if t.Group? {
      CountMonotone(t.children, up, more);
    }
  }

  lemma {:induction false} CountMonotone(ts: seq<Tree>, up: set<string>, more: set<string>)
    requires up <= more
    ensures HealthyCount(ts, up) <= HealthyCount(ts, more)
    decreases ts, 0
  {
    if ts != [] {
      if Healthy(ts[0], up) {
        HealthMonotone(ts[0], up, more);
      }
      CountMonotone(ts[1..], up, more);
    }
  }

  /** If two up sets make more children healthy than there are, some child is healthy under both. */
  lemma {:induction false} SharedChild(ts: seq<Tree>, a: set<string>, b: set<string>) returns (i: nat)
    requires HealthyCount(ts, a) + HealthyCount(ts, b) > |ts|
    ensures i < |ts| && Healthy(ts[i], a) && Healthy(ts[i], b)
    decreases |ts|
  {
    if Healthy(ts[0], a) && Healthy(ts[0], b) {
      i := 0;
    } else {
      var j := SharedChild(ts[1..], a, b);
      i := j + 1;
    }
  }

  /** Two up sets that both keep the mesh healthy have a backend of the mesh in common. */
  lemma {:induction false} NoSplitBrain(t: Tree, a: set<string>, b: set<string>) returns (node: string)
    requires Healthy(t, a) && Healthy(t, b)
    ensures node in a && node in b && node in Leaves(t)
    decreases t
  {
    match t
    case Leaf(name) =>
      node := name;
    case Group(children) =>
      var i := SharedChild(children, a, b);
      node := NoSplitBrain(children[i], a, b);
      LeafOfChild(children, i, node);
  }

  lemma {:induction false} LeafOfChild(ts: seq<Tree>, i: nat, node: string)
    requires i < |ts| && node in Leaves(ts[i])
    ensures node in LeavesOf(ts)
    decreases i
  {
    if i > 0 {
      LeafOfChild(ts[1..], i - 1, node);
    }
  }

  /** The two sides of a partition are never both healthy. */
  lemma PartitionHasOneSide(t: Tree, a: set<string>, b: set<string>)
    requires a !! b
    ensures !(Healthy(t, a) && Healthy(t, b))
  {
    if Healthy(t, a) && Healthy(t, b) {
      var node := NoSplitBrain(t, a, b);
      assert false;
    }
  }
}

/**
  What the quorum of quorums tolerates: how many backends may be down at every
  size of mesh, and when a split leaves a healthy side.
 */
module MeshHealth {
  import opened Common
  import opened MeshTopology
  import opened Tallies

  // --------------------------------------------------------- children, counted

  /** Three subtrees are healthy together exactly when two of them are. */
  lemma HealthyOfThree(a: Tree, b: Tree, c: Tree, up: set<string>)
    ensures Healthy(Group([a, b, c]), up) <==>
            One(Healthy(a, up)) + One(Healthy(b, up)) + One(Healthy(c, up)) >= 2
  {
    assert [a, b, c][1..] == [b, c] && [b, c][1..] == [c] && [c][1..] == [];
    assert HealthyCount([c], up) == One(Healthy(c, up));
    assert HealthyCount([b, c], up) == One(Healthy(b, up)) + One(Healthy(c, up));
  }

  /** Up to three backends: all of one or two, and two of three. */
  lemma HealthyOfFew(nodes: seq<string>, up: set<string>)
    requires 1 <= |nodes| <= 3
    ensures |nodes| == 1 ==> (Healthy(Balanced(nodes), up) <==> nodes[0] in up)
    ensures |nodes| == 2 ==> (Healthy(Balanced(nodes), up) <==> nodes[0] in up && nodes[1] in up)
    ensures |nodes| == 3 ==>
      (Healthy(Balanced(nodes), up) <==> One(nodes[0] in up) + One(nodes[1] in up) + One(nodes[2] in up) >= 2)
  {
    var ts := Balanced(nodes).children;
    if |nodes| == 1 {
      assert ts == [Leaf(nodes[0])];
      OnlyLeaf(nodes[0], up);
    } else if |nodes| == 2 {
      assert ts == [Leaf(nodes[0]), Leaf(nodes[1])];
      OnlyLeaf(nodes[1], up);
      assert ts[1..] == [Leaf(nodes[1])];
      assert HealthyCount(ts, up) == One(nodes[0] in up) + One(nodes[1] in up);
    } else {
      assert ts == [Leaf(nodes[0]), Leaf(nodes[1]), Leaf(nodes[2])];
      HealthyOfThree(Leaf(nodes[0]), Leaf(nodes[1]), Leaf(nodes[2]), up);
    }
  }

  lemma OnlyLeaf(name: string, up: set<string>)
    ensures HealthyCount([Leaf(name)], up) == One(name in up)
  {
    assert [Leaf(name)][1..] == [];
  }

  lemma HealthyOfParts(nodes: seq<string>, up: set<string>)
    requires |nodes| > 3
    ensures forall i :: 0 <= i < 3 ==> Part(nodes, i) != []
    ensures Healthy(Balanced(nodes), up) <==>
            One(Healthy(Balanced(Part(nodes, 0)), up)) + One(Healthy(Balanced(Part(nodes, 1)), up))
            + One(Healthy(Balanced(Part(nodes, 2)), up)) >= 2
  {
    PartsOfLarge(nodes);
    HealthyOfThree(Balanced(Part(nodes, 0)), Balanced(Part(nodes, 1)), Balanced(Part(nodes, 2)), up);
  }

  // ------------------------------------------------------------- fault tolerance

  /** The fewest backends whose loss stops a mesh of n. */
  function Faults(n: nat): nat {
    if n <= 2 then 1 else if n == 3 then 2 else Faults(PartSize(n, 1)) + Faults(PartSize(n, 2))
  }

  lemma {:induction false} FaultsMonotone(m: nat, n: nat)
    requires m <= n
    ensures 1 <= Faults(m) <= Faults(n)
    decreases n
  {
    if n > 3 {
      FaultsMonotone(PartSize(n, 1), PartSize(n, 1));
      FaultsMonotone(PartSize(n, 2), PartSize(n, 2));
      if m > 3 {
        FaultsMonotone(PartSize(m, 1), PartSize(n, 1));
        FaultsMonotone(PartSize(m, 2), PartSize(n, 2));
      }
    }
  }

  function Missing(up: set<string>): string -> bool {
    (x: string) => x !in up
  }

  lemma MissingInParts(nodes: seq<string>, up: set<string>)
    requires |nodes| > 3
    ensures Tally(nodes, Missing(up))
            == Tally(Part(nodes, 0), Missing(up)) + Tally(Part(nodes, 1), Missing(up))
               + Tally(Part(nodes, 2), Missing(up))
  {
    PartsOfLarge(nodes);
    TallyConcat(Part(nodes, 0) + Part(nodes, 1), Part(nodes, 2), Missing(up));
    TallyConcat(Part(nodes, 0), Part(nodes, 1), Missing(up));
  }

  lemma FewMissing(nodes: seq<string>, up: set<string>)
    requires 1 <= |nodes| <= 3 && !Healthy(Balanced(nodes), up)
    ensures Tally(nodes, Missing(up)) >= Faults(|nodes|)
  {
    HealthyOfFew(nodes, up);
    var f := Missing(up);
    if |nodes| == 1 {
      assert nodes == [nodes[0]];
      TallySingle(nodes[0], f);
    } else if |nodes| == 2 {
      assert nodes == [nodes[0]] + [nodes[1]];
      TallyFirst(nodes[0], [nodes[1]], f);
      TallySingle(nodes[1], f);
    } else {
      assert nodes == [nodes[0]] + ([nodes[1]] + [nodes[2]]);
      TallyFirst(nodes[0], [nodes[1]] + [nodes[2]], f);
      TallyFirst(nodes[1], [nodes[2]], f);
      TallySingle(nodes[2], f);
    }
  }

  /** An unhealthy mesh misses at least as many backends. */
  lemma {:induction false} UnhealthyMisses(nodes: seq<string>, up: set<string>)
    requires nodes != [] && !Healthy(Balanced(nodes), up)
    ensures Tally(nodes, Missing(up)) >= Faults(|nodes|)
    decreases |nodes|
  {
    if |nodes| <= 3 {
      FewMissing(nodes, up);
    } else {
      PartsOfLarge(nodes);
      HealthyOfParts(nodes, up);
      MissingInParts(nodes, up);
      FaultsMonotone(PartSize(|nodes|, 2), PartSize(|nodes|, 1));
      FaultsMonotone(PartSize(|nodes|, 1), PartSize(|nodes|, 0));
      if !Healthy(Balanced(Part(nodes, 0)), up) {
        UnhealthyMisses(Part(nodes, 0), up);
      }
      if !Healthy(Balanced(Part(nodes, 1)), up) {
        UnhealthyMisses(Part(nodes, 1), up);
      }
      if !Healthy(Balanced(Part(nodes, 2)), up) {
        UnhealthyMisses(Part(nodes, 2), up);
      }
    }
  }

  /** Distinct backends that are missing are as many as the set of them. */
  lemma {:induction false} MissingSize(nodes: seq<string>, up: set<string>)
    requires NoRepeats(nodes)
    ensures Tally(nodes, Missing(up)) == |SetOf(nodes) - up|
    decreases |nodes|
  {
    if nodes == [] {
      assert SetOf(nodes) - up == {};
    } else {
      var n := |nodes| - 1;
      MissingSize(nodes[..n], up);
      assert nodes == nodes[..n] + [nodes[n]];
      SetOfAppend(nodes[..n], nodes[n]);
      TallyAppend(nodes[..n], nodes[n], Missing(up));
      assert nodes[n] !in nodes[..n];
      OneMoreMissing(SetOf(nodes[..n]), up, nodes[n]);
    }
  }

  lemma OneMoreMissing(s: set<string>, up: set<string>, x: string)
    requires x !in s
    ensures |(s + {x}) - up| == |s - up| + One(x !in up)
  {
    if x in up {
      assert (s + {x}) - up == s - up;
    } else {
      assert (s + {x}) - up == (s - up) + {x};
    }
  }

  /** Backends whose loss stops the mesh, whoever else is up. */
  ghost predicate Stops(nodes: seq<string>, down: set<string>)
    requires nodes != []
  {
    forall up :: up !! down ==> !Healthy(Balanced(nodes), up)
  }

  lemma PartsApart(nodes: seq<string>)
    requires NoRepeats(nodes) && |nodes| > 3
    ensures forall i :: 0 <= i < 3 ==> NoRepeats(Part(nodes, i)) && SetOf(Part(nodes, i)) <= SetOf(nodes)
    ensures SetOf(Part(nodes, 0)) !! SetOf(Part(nodes, 1)) !! SetOf(Part(nodes, 2))
    ensures SetOf(nodes) == SetOf(Part(nodes, 0)) + SetOf(Part(nodes, 1)) + SetOf(Part(nodes, 2))
  {
    PartsOfLarge(nodes);
    assert nodes == Part(nodes, 0) + Part(nodes, 1) + Part(nodes, 2);
  }

  /** As many backends as `Faults` can stop the mesh. */
  lemma {:induction false} SomeLossStops(nodes: seq<string>) returns (down: set<string>)
    requires nodes != [] && NoRepeats(nodes)
    ensures down <= SetOf(nodes) && |down| == Faults(|nodes|) && Stops(nodes, down)
    decreases |nodes|
  {
    if |nodes| <= 3 {
      down := if |nodes| < 3 then {nodes[0]} else {nodes[0], nodes[1]};
      forall up | up !! down ensures !Healthy(Balanced(nodes), up) {
        HealthyOfFew(nodes, up);
        assert nodes[0] in down;
      }
    } else {
      PartsOfLarge(nodes);
      PartsApart(nodes);
      var a := SomeLossStops(Part(nodes, 1));
      var b := SomeLossStops(Part(nodes, 2));
      down := a + b;
      LossesJoin(nodes, a, b);
    }
  }

  lemma LossesJoin(nodes: seq<string>, a: set<string>, b: set<string>)
    requires |nodes| > 3 && Part(nodes, 1) != [] && Part(nodes, 2) != []
    requires Stops(Part(nodes, 1), a) && Stops(Part(nodes, 2), b)
    ensures Stops(nodes, a + b)
  {
    forall up | up !! a + b ensures !Healthy(Balanced(nodes), up) {
      HealthyOfParts(nodes, up);
      assert up !! a && up !! b;
    }
  }

  /**
    A mesh of N distinct backends stays healthy whichever fewer than Faults(N)
    of them are down, and some Faults(N) of them stop it.
   */
  lemma ToleratesExactly(nodes: seq<string>) returns (fatal: set<string>)
    requires nodes != [] && NoRepeats(nodes)
    ensures forall down :: |down| < Faults(|nodes|) ==> Healthy(Balanced(nodes), SetOf(nodes) - down)
    ensures fatal <= SetOf(nodes) && |fatal| == Faults(|nodes|) && !Healthy(Balanced(nodes), SetOf(nodes) - fatal)
  {
    forall down | |down| < Faults(|nodes|) ensures Healthy(Balanced(nodes), SetOf(nodes) - down) {
      var up := SetOf(nodes) - down;
      MissingSize(nodes, up);
      SubsetSize(SetOf(nodes) - up, down);
      if !Healthy(Balanced(nodes), up) {
        UnhealthyMisses(nodes, up);
      }
    }
    fatal := SomeLossStops(nodes);
  }

  function Power(b: nat, d: nat): nat {
    if d == 0 then 1 else b * Power(b, d - 1)
  }

  lemma {:induction false} FaultsOfPower(d: nat)
    ensures Power(3, d) >= 1 && Faults(Power(3, d)) == Power(2, d)
  {
    if d > 1 {
      FaultsOfPower(d - 1);
      PartsOfPower(d);
    } else if d == 1 {
      assert Power(3, 1) == 3 * Power(3, 0) && Power(2, 1) == 2 * Power(2, 0);
    }
  }

  lemma PartsOfPower(d: nat)
    requires d > 1 && Power(3, d - 1) >= 1
    ensures Power(3, d) > 3
    ensures PartSize(Power(3, d), 1) == PartSize(Power(3, d), 2) == Power(3, d - 1)
  {
    var m: nat := d - 1;
    assert Power(3, m) == 3 * Power(3, m - 1);
  }

  /** With 3^d backends any fewer than 2^d may be down, and some 2^d may not. */
  lemma PowerTolerates(nodes: seq<string>, d: nat) returns (fatal: set<string>)
    requires NoRepeats(nodes) && |nodes| == Power(3, d)
    ensures nodes != [] && forall down :: |down| < Power(2, d) ==> Healthy(Balanced(nodes), SetOf(nodes) - down)
    ensures fatal <= SetOf(nodes) && |fatal| == Power(2, d) && !Healthy(Balanced(nodes), SetOf(nodes) - fatal)
  {
    FaultsOfPower(d);
    fatal := ToleratesExactly(nodes);
  }

  // ----------------------------------------------------------- one healthy side

  /** Every group has an odd number of children. */
  predicate OddGroups(t: Tree) {
    t.Group? ==> |t.children| % 2 == 1 && forall i :: 0 <= i < |t.children| ==> OddGroups(t.children[i])
  }

  /** The two sets share out the backends of the tree. */
  ghost predicate Split(names: seq<string>, a: set<string>, b: set<string>) {
    forall name :: name in names ==> (name in a <==> name !in b)
  }

  lemma {:induction false} SidesCount(ts: seq<Tree>, a: set<string>, b: set<string>)
    requires forall i :: 0 <= i < |ts| ==> OddGroups(ts[i])
    requires Split(LeavesOf(ts), a, b)
    ensures HealthyCount(ts, a) + HealthyCount(ts, b) == |ts|
    decreases ts, 0
  {
    if ts != [] {
      assert LeavesOf(ts) == Leaves(ts[0]) + LeavesOf(ts[1..]);
      OneHealthySide(ts[0], a, b);
      SidesCount(ts[1..], a, b);
    }
  }

  /** With odd groups throughout, whichever way the backends are split, exactly one side is healthy. */
  lemma {:induction false} OneHealthySide(t: Tree, a: set<string>, b: set<string>)
    requires OddGroups(t) && Split(Leaves(t), a, b)
    ensures Healthy(t, a) <==> !Healthy(t, b)
    decreases t, 1
  {
    match t
    case Leaf(name) =>
      assert name in Leaves(t);
    case Group(children) =>
      SidesCount(children, a, b);
  }

  /** The sizes at which no group of the balanced tree has two children. */
  predicate OddSize(n: nat) {
    n == 1 || n == 3
    || (n > 3 && OddSize(PartSize(n, 0)) && OddSize(PartSize(n, 1)) && OddSize(PartSize(n, 2)))
  }

  lemma {:induction false} OddSizeHasOddGroups(nodes: seq<string>)
    requires nodes != [] && OddSize(|nodes|)
    ensures OddGroups(Balanced(nodes))
    decreases |nodes|
  {
    if |nodes| > 3 {
      PartsOfLarge(nodes);
      OddSizeHasOddGroups(Part(nodes, 0));
      OddSizeHasOddGroups(Part(nodes, 1));
      OddSizeHasOddGroups(Part(nodes, 2));
    }
  }

  /** Neither side is healthy, nor is it with outsiders. */
  ghost predicate Deadlocked(nodes: seq<string>, a: set<string>, b: set<string>)
    requires nodes != []
  {
    forall up :: up !! a || up !! b ==> !Healthy(Balanced(nodes), up)
  }

  /** At any other size some split leaves both sides unhealthy. */
  lemma {:induction false} SomeSplitDeadlocks(nodes: seq<string>) returns (a: set<string>, b: set<string>)
    requires nodes != [] && NoRepeats(nodes) && !OddSize(|nodes|)
    ensures a !! b && a + b == SetOf(nodes) && Deadlocked(nodes, a, b)
    decreases |nodes|
  {
    if |nodes| == 2 {
      a, b := {nodes[0]}, {nodes[1]};
      forall up | up !! a || up !! b ensures !Healthy(Balanced(nodes), up) {
        HealthyOfFew(nodes, up);
        assert nodes[0] in a && nodes[1] in b;
      }
    } else {
      PartsOfLarge(nodes);
      PartsApart(nodes);
      var i: nat := if !OddSize(|Part(nodes, 0)|) then 0 else if !OddSize(|Part(nodes, 1)|) then 1 else 2;
      var j: nat, k: nat := (i + 1) % 3, (i + 2) % 3;
      a, b := SomeSplitDeadlocks(Part(nodes, i));
      DeadlockSpreads(nodes, i, j, k, a, b);
      a, b := a + SetOf(Part(nodes, j)), b + SetOf(Part(nodes, k));
    }
  }

  /** One part deadlocked, one on either side: the whole is deadlocked. */
  lemma DeadlockSpreads(nodes: seq<string>, i: nat, j: nat, k: nat, a: set<string>, b: set<string>)
    requires |nodes| > 3 && i < 3 && j < 3 && k < 3 && i != j && j != k && i != k
    requires Part(nodes, i) != [] && Deadlocked(Part(nodes, i), a, b)
    ensures Deadlocked(nodes, a + SetOf(Part(nodes, j)), b + SetOf(Part(nodes, k)))
  {
    forall up | up !! a + SetOf(Part(nodes, j)) || up !! b + SetOf(Part(nodes, k))
      ensures !Healthy(Balanced(nodes), up)
    {
      HealthyOfParts(nodes, up);
      assert up !! a || up !! b;
      assert !Healthy(Balanced(Part(nodes, i)), up);
      if up !! a + SetOf(Part(nodes, j)) {
        NobodyUp(Part(nodes, j), up);
      } else {
        NobodyUp(Part(nodes, k), up);
      }
    }
  }

  lemma NobodyUp(nodes: seq<string>, up: set<string>)
    requires nodes != [] && up !! SetOf(nodes)
    ensures !Healthy(Balanced(nodes), up)
  {
    if Healthy(Balanced(nodes), up) {
      var node := NoSplitBrain(Balanced(nodes), up, up);
      LeavesOfBalanced(nodes);
      assert false;
    }
  }

  /** Every split of N distinct backends leaves exactly one healthy side if and only if N is an odd size. */
  lemma AlwaysOneSideIff(nodes: seq<string>)
    requires nodes != [] && NoRepeats(nodes)
    ensures (forall a :: Healthy(Balanced(nodes), a) <==> !Healthy(Balanced(nodes), SetOf(nodes) - a))
            <==> OddSize(|nodes|)
  {
    var t := Balanced(nodes);
    LeavesOfBalanced(nodes);
    if OddSize(|nodes|) {
      OddSizeHasOddGroups(nodes);
      forall a ensures Healthy(t, a) <==> !Healthy(t, SetOf(nodes) - a) {
        OneHealthySide(t, a, SetOf(nodes) - a);
      }
    } else {
      var a, b := SomeSplitDeadlocks(nodes);
      assert SetOf(nodes) - a == b;
      assert a !! b && b !! a;
      assert !Healthy(t, a) && !Healthy(t, SetOf(nodes) - a);
    }
  }
}

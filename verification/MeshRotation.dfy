/**
  Leadership over the mesh tree: at each level the epoch picks a child, and the
  quotient goes on to the next level.
 */
module MeshRotation {
  import opened Arithmetic
  import opened MeshTopology
  import opened Tallies

  /** Every group has a member, as in every tree the builder makes. */
  ghost predicate WellFormed(t: Tree) {
    t.Group? ==> t.children != [] && forall i :: 0 <= i < |t.children| ==> WellFormed(t.children[i])
  }

  function Leader(t: Tree, epoch: int): string
    requires WellFormed(t)
    decreases t
  {
    match t
    case Leaf(name) => name
    case Group(children) => Leader(children[epoch % |children|], epoch / |children|)
  }

  function TurnLength(t: Tree): (n: nat)
    decreases t, 1
  {
    match t
    case Leaf(_) => 1
    case Group(children) => |children| * LongestTurn(children)
  }

  function LongestTurn(ts: seq<Tree>): (n: nat)
    ensures forall i :: 0 <= i < |ts| ==> TurnLength(ts[i]) <= n
    decreases ts, 0
  {
    if ts == [] then 0
    else
      var head, rest := TurnLength(ts[0]), LongestTurn(ts[1..]);
      assert forall i :: 1 <= i < |ts| ==> ts[i] == ts[1..][i - 1];
      if head >= rest then head else rest
  }

  lemma {:induction false} BalancedWellFormed(nodes: seq<string>)
    requires nodes != []
    ensures WellFormed(Balanced(nodes))
    decreases |nodes|
  {
    if |nodes| > 3 {
      PartsOfLarge(nodes);
      BalancedWellFormed(Part(nodes, 0));
      BalancedWellFormed(Part(nodes, 1));
      BalancedWellFormed(Part(nodes, 2));
    }
  }

  // ------------------------------------------------------------ everyone leads

  lemma {:induction false} ChildOfLeaf(ts: seq<Tree>, name: string) returns (i: nat)
    requires name in LeavesOf(ts)
    ensures i < |ts| && name in Leaves(ts[i])
    decreases |ts|
  {
    if name in Leaves(ts[0]) {
      i := 0;
    } else {
      var j := ChildOfLeaf(ts[1..], name);
      i := j + 1;
    }
  }

  /** Over one turn, every backend of any mesh tree leads at least once. */
  lemma {:induction false} EveryoneLeads(t: Tree, name: string) returns (epoch: nat)
    requires WellFormed(t) && name in Leaves(t)
    ensures epoch < TurnLength(t) && Leader(t, epoch) == name
    decreases t
  {
    match t
    case Leaf(_) =>
      epoch := 0;
    case Group(children) =>
      var c := |children|;
      var i := ChildOfLeaf(children, name);
      var e := EveryoneLeads(children[i], name);
      epoch := e * c + i;
      DivModUnique(epoch, c, e, i);
      MulMonotone(e, LongestTurn(children), c);
  }

  // ------------------------------------------------------------ exactly once

  /** How many of the first n epochs `name` leads. */
  ghost function Led(t: Tree, n: nat, name: string): nat
    requires WellFormed(t)
  {
    if n == 0 then 0 else Led(t, n - 1, name) + One(Leader(t, n - 1) == name)
  }

  /** Over one turn every backend leads exactly as often as it is listed. */
  ghost predicate ExactlyOnce(t: Tree)
    requires WellFormed(t)
  {
    forall name :: Led(t, TurnLength(t), name) == Tally(Leaves(t), Equals(name))
  }

  /** Siblings have equal turn lengths, throughout the tree. */
  ghost predicate Even(t: Tree) {
    t.Group? ==>
      && (forall i :: 0 <= i < |t.children| ==> Even(t.children[i]))
      && (forall i :: 0 <= i < |t.children| ==> TurnLength(t.children[i]) == LongestTurn(t.children))
  }

  /** How often `name` leads among the first m epochs of each of the first i children. */
  ghost function ChildrenLed(ts: seq<Tree>, m: nat, i: nat, name: string): nat
    requires i <= |ts| && forall j :: 0 <= j < |ts| ==> WellFormed(ts[j])
  {
    if i == 0 then 0 else ChildrenLed(ts, m, i - 1, name) + Led(ts[i - 1], m, name)
  }

  /** How many of the first i children `name` leads at epoch m. */
  ghost function ChildrenLeading(ts: seq<Tree>, m: nat, i: nat, name: string): nat
    requires i <= |ts| && forall j :: 0 <= j < |ts| ==> WellFormed(ts[j])
  {
    if i == 0 then 0 else ChildrenLeading(ts, m, i - 1, name) + One(Leader(ts[i - 1], m) == name)
  }

  lemma {:induction false} ChildrenLedStep(ts: seq<Tree>, m: nat, i: nat, name: string)
    requires i <= |ts| && forall j :: 0 <= j < |ts| ==> WellFormed(ts[j])
    ensures ChildrenLed(ts, m + 1, i, name) == ChildrenLed(ts, m, i, name) + ChildrenLeading(ts, m, i, name)
    decreases i
  {
    if i > 0 {
      ChildrenLedStep(ts, m, i - 1, name);
    }
  }

  lemma {:induction false} NothingYet(ts: seq<Tree>, i: nat, name: string)
    requires i <= |ts| && forall j :: 0 <= j < |ts| ==> WellFormed(ts[j])
    ensures ChildrenLed(ts, 0, i, name) == 0
    decreases i
  {
    if i > 0 { NothingYet(ts, i - 1, name); }
  }

  lemma LeaderOfRound(t: Tree, m: nat, j: nat, e: nat)
    requires WellFormed(t) && t.Group? && j < |t.children| && e == m * |t.children| + j
    ensures Leader(t, e) == Leader(t.children[j], m)
  {
    DivModUnique(e, |t.children|, m, j);
  }

  /** After m full rounds and j more epochs: every child has led m times, and the first j once more. */
  lemma {:induction false} TurnInterleaves(t: Tree, m: nat, j: nat, n: nat, name: string)
    requires WellFormed(t) && t.Group? && j <= |t.children| && n == m * |t.children| + j
    ensures Led(t, n, name)
            == ChildrenLed(t.children, m, |t.children|, name) + ChildrenLeading(t.children, m, j, name)
    decreases m, j
  {
    var ts, c := t.children, |t.children|;
    if j > 0 {
      var i: nat, before: nat := j - 1, n - 1;
      TurnInterleaves(t, m, i, before, name);
      LeaderOfRound(t, m, i, before);
    } else if m > 0 {
      var l: nat := m - 1;
      MulSucc(l, c);
      TurnInterleaves(t, l, c, n, name);
      ChildrenLedStep(ts, l, c, name);
    } else {
      NothingYet(ts, c, name);
    }
  }

  lemma {:induction false} LeavesAppend(ts: seq<Tree>, t: Tree)
    ensures LeavesOf(ts + [t]) == LeavesOf(ts) + Leaves(t)
  {
    if ts == [] {
      assert (ts + [t])[1..] == [];
    } else {
      assert (ts + [t])[1..] == ts[1..] + [t];
      LeavesAppend(ts[1..], t);
    }
  }

  lemma {:induction false} ChildrenLedListed(ts: seq<Tree>, m: nat, i: nat, name: string)
    requires i <= |ts|
    requires forall j :: 0 <= j < |ts| ==>
             WellFormed(ts[j]) && Led(ts[j], m, name) == Tally(Leaves(ts[j]), Equals(name))
    ensures ChildrenLed(ts, m, i, name) == Tally(LeavesOf(ts[..i]), Equals(name))
    decreases i
  {
    if i > 0 {
      var l: nat := i - 1;
      ChildrenLedListed(ts, m, l, name);
      LeavesUpTo(ts, l, Equals(name));
    }
  }

  lemma LeavesUpTo(ts: seq<Tree>, l: nat, f: string -> bool)
    requires l < |ts|
    ensures Tally(LeavesOf(ts[..l + 1]), f) == Tally(LeavesOf(ts[..l]), f) + Tally(Leaves(ts[l]), f)
  {
    assert ts[..l + 1] == ts[..l] + [ts[l]];
    LeavesAppend(ts[..l], ts[l]);
    TallyConcat(LeavesOf(ts[..l]), Leaves(ts[l]), f);
  }

  lemma GroupTurnsOnce(t: Tree, m: nat, n: nat, name: string)
    requires WellFormed(t) && t.Group? && n == m * |t.children|
    requires forall j :: 0 <= j < |t.children| ==>
      Led(t.children[j], m, name) == Tally(Leaves(t.children[j]), Equals(name))
    ensures Led(t, n, name) == Tally(Leaves(t), Equals(name))
  {
    var ts, c := t.children, |t.children|;
    TurnInterleaves(t, m, 0, n, name);
    ChildrenLedListed(ts, m, c, name);
    assert ts[..c] == ts;
  }

  lemma {:induction false} EvenTurnsOnce(t: Tree, name: string)
    requires WellFormed(t) && Even(t)
    ensures Led(t, TurnLength(t), name) == Tally(Leaves(t), Equals(name))
    decreases t
  {
    match t
    case Leaf(_) =>
      assert Led(t, 1, name) == Led(t, 0, name) + One(t.name == name);
    case Group(ts) =>
      forall j | 0 <= j < |ts| ensures Led(ts[j], LongestTurn(ts), name) == Tally(Leaves(ts[j]), Equals(name)) {
        EvenTurnsOnce(ts[j], name);
      }
      GroupTurnsOnce(t, LongestTurn(ts), TurnLength(t), name);
  }

  // -------------------------------------------------- when a turn is exactly once

  /** All the epochs of a turn, counted by who leads them. */
  lemma {:induction false} TurnNoShorter(t: Tree)
    requires WellFormed(t)
    ensures TurnLength(t) >= |Leaves(t)| >= 1
    ensures TurnLength(t) == |Leaves(t)| <==> Even(t)
    decreases t
  {
    if t.Group? {
      forall j | 0 <= j < |t.children| ensures TurnNoShorterAt(t.children[j]) {
        TurnNoShorter(t.children[j]);
      }
      GroupNoShorter(t.children, LongestTurn(t.children));
    }
  }

  ghost predicate TurnNoShorterAt(t: Tree) {
    TurnLength(t) >= |Leaves(t)| >= 1 && (TurnLength(t) == |Leaves(t)| <==> Even(t))
  }

  /** n children whose turns are at most m have at most m * n leaves, and as many only if all are as long and even. */
  lemma {:induction false} GroupNoShorter(ts: seq<Tree>, m: nat)
    requires forall j :: 0 <= j < |ts| ==> TurnNoShorterAt(ts[j]) && TurnLength(ts[j]) <= m
    ensures |LeavesOf(ts)| <= |ts| * m
    ensures |LeavesOf(ts)| == |ts| * m <==> forall j :: 0 <= j < |ts| ==> Even(ts[j]) && TurnLength(ts[j]) == m
    ensures ts != [] ==> |LeavesOf(ts)| >= 1
    decreases |ts|
  {
    if ts != [] {
      var rest := ts[1..];
      assert forall j :: 0 <= j < |rest| ==> rest[j] == ts[j + 1];
      GroupNoShorter(rest, m);
      MulSucc(|rest|, m);
      assert TurnNoShorterAt(ts[0]);
      assert (forall j :: 0 <= j < |ts| ==> Even(ts[j]) && TurnLength(ts[j]) == m)
          <==> Even(ts[0]) && TurnLength(ts[0]) == m
               && (forall j :: 0 <= j < |rest| ==> Even(rest[j]) && TurnLength(rest[j]) == m) by {
        assert forall j :: 1 <= j < |ts| ==> ts[j] == rest[j - 1];
      }
    }
  }

  /** The leaders of the first n epochs, in order. */
  ghost function Turn(t: Tree, n: nat): (leaders: seq<string>)
    requires WellFormed(t)
    ensures |leaders| == n
  {
    if n == 0 then [] else Turn(t, n - 1) + [Leader(t, n - 1)]
  }

  lemma {:induction false} LedIsListed(t: Tree, n: nat, name: string)
    requires WellFormed(t)
    ensures Led(t, n, name) == Tally(Turn(t, n), Equals(name))
    decreases n
  {
    if n > 0 {
      LedIsListed(t, n - 1, name);
      TallyConcat(Turn(t, n - 1), [Leader(t, n - 1)], Equals(name));
    }
  }

  /** A turn gives every backend exactly one epoch exactly when siblings have equal turns throughout. */
  lemma ExactlyOnceIffEven(t: Tree)
    requires WellFormed(t)
    ensures ExactlyOnce(t) <==> Even(t)
  {
    TurnNoShorter(t);
    if Even(t) {
      forall name ensures Led(t, TurnLength(t), name) == Tally(Leaves(t), Equals(name)) {
        EvenTurnsOnce(t, name);
      }
    } else if ExactlyOnce(t) {
      forall name ensures Tally(Turn(t, TurnLength(t)), Equals(name)) == Tally(Leaves(t), Equals(name)) {
        LedIsListed(t, TurnLength(t), name);
      }
      SameLength(Turn(t, TurnLength(t)), Leaves(t));
      assert false;
    }
  }

  // ------------------------------------------------------ by the size of the mesh

  /** The turn length of a mesh of n backends. */
  function SizeTurn(n: nat): nat {
    if n <= 3 then n else 3 * SizeTurn((n + 2) / 3)
  }

  lemma {:induction false} SizeTurnMonotone(m: nat, n: nat)
    requires m <= n
    ensures SizeTurn(m) <= SizeTurn(n)
    decreases n
  {
    if m > 3 {
      SizeTurnMonotone((m + 2) / 3, (n + 2) / 3);
    } else if n > 3 {
      SizeTurnMonotone(if m >= 2 then 2 else m, (n + 2) / 3);
    }
  }

  lemma LongestOfThree(a: Tree, b: Tree, c: Tree)
    requires TurnLength(a) >= TurnLength(b) && TurnLength(a) >= TurnLength(c)
    ensures LongestTurn([a, b, c]) == TurnLength(a)
  {
    assert [a, b, c][1..] == [b, c] && [b, c][1..] == [c] && [c][1..] == [];
    assert LongestTurn([c]) == TurnLength(c);
  }

  lemma {:induction false} LongestOfLeaves(ts: seq<Tree>)
    requires ts != [] && forall i :: 0 <= i < |ts| ==> ts[i].Leaf?
    ensures LongestTurn(ts) == 1
    decreases |ts|
  {
    if |ts| > 1 {
      LongestOfLeaves(ts[1..]);
    }
  }

  lemma {:induction false} BalancedTurn(nodes: seq<string>)
    requires nodes != []
    ensures TurnLength(Balanced(nodes)) == SizeTurn(|nodes|)
    decreases |nodes|
  {
    var n := |nodes|;
    if n <= 3 {
      LongestOfLeaves(Balanced(nodes).children);
    } else {
      PartsOfLarge(nodes);
      BalancedTurn(Part(nodes, 0));
      BalancedTurn(Part(nodes, 1));
      BalancedTurn(Part(nodes, 2));
      LargestPartFirst(nodes);
      LongestOfThree(Balanced(Part(nodes, 0)), Balanced(Part(nodes, 1)), Balanced(Part(nodes, 2)));
    }
  }

  /** The first part is the largest, so its turn is the longest. */
  lemma LargestPartFirst(nodes: seq<string>)
    requires |nodes| > 3
    ensures SizeTurn(|Part(nodes, 0)|) >= SizeTurn(|Part(nodes, 1)|)
            && SizeTurn(|Part(nodes, 0)|) >= SizeTurn(|Part(nodes, 2)|)
    ensures SizeTurn(|nodes|) == 3 * SizeTurn(|Part(nodes, 0)|)
  {
    var n := |nodes|;
    PartsOfLarge(nodes);
    SizeTurnMonotone(PartSize(n, 1), PartSize(n, 0));
    SizeTurnMonotone(PartSize(n, 2), PartSize(n, 0));
    assert PartSize(n, 0) == (n + 2) / 3;
  }

  /** One, two or three backends, times a power of three. */
  predicate EvenSize(n: nat) {
    n <= 3 || (n % 3 == 0 && EvenSize(n / 3))
  }

  lemma {:induction false} SizeTurnIsSize(n: nat)
    ensures SizeTurn(n) >= n
    ensures SizeTurn(n) == n <==> EvenSize(n)
  {
    if n > 3 {
      SizeTurnIsSize((n + 2) / 3);
    }
  }

  /** Over one turn of a mesh, of any size, every backend leads. */
  lemma EveryBackendLeads(nodes: seq<string>, name: string) returns (epoch: nat)
    requires name in nodes
    ensures WellFormed(Balanced(nodes)) && TurnLength(Balanced(nodes)) == SizeTurn(|nodes|)
    ensures epoch < SizeTurn(|nodes|) && Leader(Balanced(nodes), epoch) == name
  {
    BalancedWellFormed(nodes);
    BalancedTurn(nodes);
    LeavesOfBalanced(nodes);
    epoch := EveryoneLeads(Balanced(nodes), name);
  }

  /** A turn of N backends is exactly once each if and only if N is one, two or three times a power of three. */
  lemma ExactlyOnceBySize(nodes: seq<string>)
    requires nodes != []
    ensures WellFormed(Balanced(nodes))
    ensures ExactlyOnce(Balanced(nodes)) <==> EvenSize(|nodes|)
  {
    BalancedWellFormed(nodes);
    BalancedTurn(nodes);
    LeavesOfBalanced(nodes);
    TurnNoShorter(Balanced(nodes));
    ExactlyOnceIffEven(Balanced(nodes));
    SizeTurnIsSize(|nodes|);
  }

  /** Four backends take a turn of six epochs, in which the third and fourth lead twice. */
  lemma FourBackends(a: string, b: string, c: string, d: string)
    ensures WellFormed(Balanced([a, b, c, d]))
    ensures TurnLength(Balanced([a, b, c, d])) == 6
    ensures Turn(Balanced([a, b, c, d]), 6) == [a, c, d, b, c, d]
  {
    var nodes := [a, b, c, d];
    BalancedWellFormed(nodes);
    BalancedTurn(nodes);
    assert SizeTurn(2) == 2;
    PartsOfLarge(nodes);
    assert Part(nodes, 0) == [a, b] && Part(nodes, 1) == [c] && Part(nodes, 2) == [d];
    var t := Balanced(nodes);
    var pair, third, fourth := Balanced([a, b]), Balanced([c]), Balanced([d]);
    assert t.children == [pair, third, fourth];
    LeaderOfRound(t, 0, 0, 0); LeaderOfRound(t, 0, 1, 1); LeaderOfRound(t, 0, 2, 2);
    LeaderOfRound(t, 1, 0, 3); LeaderOfRound(t, 1, 1, 4); LeaderOfRound(t, 1, 2, 5);
    LeaderOfRound(pair, 0, 0, 0); LeaderOfRound(pair, 0, 1, 1);
    LeaderOfRound(third, 0, 0, 0); LeaderOfRound(third, 1, 0, 1);
    LeaderOfRound(fourth, 0, 0, 0); LeaderOfRound(fourth, 1, 0, 1);
    assert Turn(t, 2) == [a, c];
    assert Turn(t, 4) == [a, c, d, b];
  }
}

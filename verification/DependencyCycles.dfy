/** Cycle detection over the dependency adjacency by depth-first search. */
module DependencyCycles {
  import opened Common

  type Graph = map<string, seq<string>>

  function Neighbours(g: Graph, node: string): seq<string> {
    if node in g then g[node] else []
  }

  /** Consecutive nodes are joined by edges. */
  ghost predicate Walk(g: Graph, p: seq<string>) {
    forall i :: 0 <= i < |p| - 1 ==> p[i + 1] in Neighbours(g, p[i])
  }

  /** A directed cycle, its first node written again at the end. */
  ghost predicate ClosedWalk(g: Graph, c: seq<string>) {
    |c| >= 2 && c[0] == c[|c| - 1] && Walk(g, c)
  }

  ghost predicate SimpleCycle(g: Graph, c: seq<string>) {
    ClosedWalk(g, c) && NoRepeats(c[..|c| - 1])
  }

  ghost predicate Cyclic(g: Graph) {
    exists c :: ClosedWalk(g, c)
  }

  /** The nodes mentioned by edges, with every neighbour among them. */
  ghost predicate Covers(g: Graph, nodes: set<string>) {
    forall u :: u in g && g[u] != [] ==> u in nodes && SetOf(g[u]) <= nodes
  }

  /** Every edge out of a finished node goes to a node finished before it. */
  ghost predicate Topological(g: Graph, order: seq<string>) {
    forall j, v :: 0 <= j < |order| && v in Neighbours(g, order[j]) ==> v in order[..j]
  }

  function IndexOf(p: seq<string>, x: string): (i: nat)
    requires x in p
    ensures i < |p| && p[i] == x && x !in p[..i]
  {
    if p[0] == x then 0 else 1 + IndexOf(p[1..], x)
  }

  /** A walk without repeats that meets itself again closes a simple cycle. */
  lemma ClosesSimpleCycle(g: Graph, path: seq<string>, next: string)
    requires Walk(g, path) && NoRepeats(path) && next in path && next in Neighbours(g, path[|path| - 1])
    ensures var body := path[IndexOf(path, next)..]; (body + [next])[..|body|] == body && SimpleCycle(g, body + [next])
  {
    var start := IndexOf(path, next);
    var body := path[start..];
    var cycle := body + [next];
    assert cycle[..|body|] == body;
    forall i | 0 <= i < |cycle| - 1 ensures cycle[i + 1] in Neighbours(g, cycle[i]) {
      if i + 1 < |body| {
        assert path[start + i + 1] in Neighbours(g, path[start + i]);
      }
    }
  }

  class CycleSearch {
    const graph: Graph
    ghost const nodes: set<string>
    var visited: set<string>
    var stack: set<string>
    var path: seq<string>
    var cycles: seq<seq<string>>
    /** The nodes whose search has returned, in the order it returned. */
    ghost var order: seq<string>

    ghost predicate Valid()
      reads this
    {
      && Covers(graph, nodes)
      && stack == SetOf(path) && NoRepeats(path) && Walk(graph, path)
      && visited == stack + SetOf(order) && stack !! SetOf(order) && visited <= nodes
      && (forall i :: 0 <= i < |cycles| ==> SimpleCycle(graph, cycles[i])) && NoRepeats(cycles)
      && (cycles == [] ==> Topological(graph, order))
    }

    constructor (g: Graph, ghost all: set<string>)
      requires Covers(g, all)
      ensures Valid() && graph == g && nodes == all && visited == {} && cycles == [] && path == [] && order == []
    {
      graph, nodes := g, all;
      visited, stack, path, cycles, order := {}, {}, [], [], [];
    }

    /** One neighbour of the node at the end of the path. */
    method Follow(next: string)
      requires Valid() && path != [] && next in Neighbours(graph, path[|path| - 1])
      modifies this
      ensures Valid() && path == old(path) && (cycles == [] ==> next in order)
      ensures old(visited) <= visited && old(order) <= order && old(cycles) <= cycles
      decreases nodes - visited, 1
    {
      if next !in visited {
        Dfs(next);
      } else if next in stack {
        Record(next);
      }
    }

    /** The search below one unvisited node: it comes back finished, and the path is as it was. */
    method Dfs(node: string)
      requires Valid() && node in nodes && node !in visited
      requires path != [] ==> node in Neighbours(graph, path[|path| - 1])
      modifies this
      ensures Valid() && path == old(path) && node in order
      ensures old(visited) <= visited && old(order) <= order && old(cycles) <= cycles
      decreases nodes - visited, 0
    {
      Enter(node);
      FollowAll(node);
      Leave(node);
    }

    /** Every neighbour of the node at the end of the path, one after the other. */
    method FollowAll(node: string)
      requires Valid() && path != [] && path[|path| - 1] == node
      modifies this
      ensures Valid() && path == old(path) && (cycles == [] ==> forall v :: v in Neighbours(graph, node) ==> v in order)
      ensures old(visited) <= visited && old(order) <= order && old(cycles) <= cycles
      decreases nodes - visited, 2
    {
      var ns := Neighbours(graph, node);
      for i := 0 to |ns|
        invariant Valid() && path == old(path)
        invariant old(visited) <= visited && old(order) <= order && old(cycles) <= cycles
        invariant cycles == [] ==> forall j :: 0 <= j < i ==> ns[j] in order
      {
        Follow(ns[i]);
      }
    }

    /** The node goes on the path. */
    method Enter(node: string)
      requires Valid() && node in nodes && node !in visited
      requires path != [] ==> node in Neighbours(graph, path[|path| - 1])
      modifies this`visited, this`stack, this`path
      ensures Valid() && path == old(path) + [node] && visited == old(visited) + {node}
    {
      visited := visited + {node};
      stack := stack + {node};
      path := path + [node];
      assert path[..|path| - 1] == old(path);
      assert SetOf(path) == SetOf(old(path)) + {node};
    }

    /** The node comes off the path, its neighbours all finished unless a cycle was found. */
    method Leave(node: string)
      requires Valid() && path != [] && path[|path| - 1] == node
      requires cycles == [] ==> forall v :: v in Neighbours(graph, node) ==> v in order
      modifies this`stack, this`path, this`order
      ensures Valid() && path == old(path)[..|old(path)| - 1] && order == old(order) + [node]
    {
      stack := stack - {node};
      path := path[..|path| - 1];
      order := order + [node];
      assert old(path) == path + [node];
      assert node !in path;
      assert SetOf(old(path)) == SetOf(path) + {node};
      assert SetOf(order) == SetOf(old(order)) + {node};
      assert order[..|order| - 1] == old(order);
    }

    /** A neighbour on the path closes a cycle. */
    method Record(neighbour: string)
      requires Valid() && path != [] && neighbour in path && neighbour in Neighbours(graph, path[|path| - 1])
      modifies this`cycles
      ensures Valid() && old(cycles) <= cycles && cycles != []
    {
      var start := IndexOf(path, neighbour);
      var cycle := path[start..] + [neighbour];
      ClosesSimpleCycle(graph, path, neighbour);
      if cycle !in cycles {
        cycles := cycles + [cycle];
      }
    }

    /** Search from every node that is still unvisited. */
    method DetectCycles(all: set<string>)
      requires Valid() && all == nodes && visited == {} && path == [] && cycles == []
      modifies this
      ensures cycles != [] <==> Cyclic(graph)
      ensures NoRepeats(cycles) && forall i :: 0 <= i < |cycles| ==> SimpleCycle(graph, cycles[i])
    {
      var todo := all;
      while todo != {}
        invariant Valid() && path == [] && todo <= all && all - todo <= visited
        decreases todo
      {
        var node :| node in todo;
        todo := todo - {node};
        if node !in visited {
          Dfs(node);
        }
      }
      if cycles == [] {
        assert SetOf(order) == nodes;
        TopologicalIsAcyclic(graph, nodes, order);
      } else {
        assert SimpleCycle(graph, cycles[0]);
      }
    }
  }

  /** Along a walk, finishing positions fall, so no walk comes back to its start. */
  lemma {:induction false} WalkDescends(g: Graph, order: seq<string>, p: seq<string>, j: nat)
    requires Topological(g, order) && Walk(g, p) && |p| >= 2
    requires j < |order| && order[j] == p[0]
    ensures exists i :: 0 <= i < j && order[i] == p[|p| - 1]
    decreases |p|
  {
    assert p[1] in Neighbours(g, order[j]);
    assert p[1] in order[..j];
    var k :| 0 <= k < j && order[..j][k] == p[1];
    if |p| > 2 {
      assert Walk(g, p[1..]) by {
        forall i | 0 <= i < |p[1..]| - 1 ensures p[1..][i + 1] in Neighbours(g, p[1..][i]) {
          assert p[i + 1 + 1] in Neighbours(g, p[i + 1]);
        }
      }
      WalkDescends(g, order, p[1..], k);
    }
  }

  /** A closed walk that starts at position j starts at a position below j too. */
  lemma {:induction false} NoClosedWalk(g: Graph, order: seq<string>, c: seq<string>, j: nat)
    requires Topological(g, order) && ClosedWalk(g, c) && j < |order| && order[j] == c[0]
    ensures false
    decreases j
  {
    WalkDescends(g, order, c, j);
    var i :| 0 <= i < j && order[i] == c[|c| - 1];
    NoClosedWalk(g, order, c, i);
  }

  lemma StartsInside(g: Graph, nodes: set<string>, c: seq<string>)
    requires Covers(g, nodes) && ClosedWalk(g, c)
    ensures c[0] in nodes
  {
    var i := 0;
    var u, v := c[i], c[i + 1];
    assert v in Neighbours(g, u);
  }

  lemma TopologicalIsAcyclic(g: Graph, nodes: set<string>, order: seq<string>)
    requires Covers(g, nodes) && SetOf(order) == nodes && Topological(g, order)
    ensures !Cyclic(g)
  {
    forall c | ClosedWalk(g, c) ensures false {
      StartsInside(g, nodes, c);
      assert c[0] in order;
      var j :| 0 <= j < |order| && order[j] == c[0];
      NoClosedWalk(g, order, c, j);
    }
  }
}

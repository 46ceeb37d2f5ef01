/**
  The hard-cycle finder: enumerate paths of at most twelve nodes from every
  node, and report each cycle once whatever node it was entered at.
 */
module ServiceCycles {
  import opened Common
  import opened DependencyCycles
  import opened Lexicographic

  const LIMIT: nat := 12

  // -------------------------------------------------------------------- rotations

  function Rotate(b: seq<string>, i: nat): (r: seq<string>)
    requires i <= |b|
    ensures |r| == |b|
  {
    b[i..] + b[..i]
  }

  ghost predicate IsRotation(a: seq<string>, b: seq<string>) {
    exists i: nat :: i <= |a| && b == Rotate(a, i)
  }

  lemma RotateTwice(b: seq<string>, i: nat, j: nat) returns (k: nat)
    requires i <= |b| && j <= |b|
    ensures k <= |b| && Rotate(Rotate(b, i), j) == Rotate(b, k)
  {
    if i + j <= |b| {
      k := i + j;
      assert Rotate(b, i)[j..] == b[k..] + b[..i];
      assert Rotate(b, i)[..j] == b[i..k];
      assert b[..i] + b[i..k] == b[..k];
      assert (b[k..] + b[..i]) + b[i..k] == b[k..] + (b[..i] + b[i..k]);
    } else {
      k := i + j - |b|;
      assert Rotate(b, i)[j..] == b[k..i];
      assert Rotate(b, i)[..j] == b[i..] + b[..k];
      assert b[k..i] + b[i..] == b[k..];
      assert b[k..i] + (b[i..] + b[..k]) == (b[k..i] + b[i..]) + b[..k];
    }
  }

  lemma RotateBack(b: seq<string>, i: nat)
    requires i <= |b|
    ensures Rotate(Rotate(b, i), |b| - i) == b
  {
    assert Rotate(b, i)[|b| - i..] == b[..i];
    assert Rotate(b, i)[..|b| - i] == b[i..];
  }

  lemma RotationSymmetric(a: seq<string>, b: seq<string>)
    requires IsRotation(a, b)
    ensures IsRotation(b, a)
  {
    var i: nat :| i <= |a| && b == Rotate(a, i);
    RotateBack(a, i);
    assert a == Rotate(b, |b| - i);
  }

  lemma RotationTransitive(a: seq<string>, b: seq<string>, c: seq<string>)
    requires IsRotation(a, b) && IsRotation(b, c)
    ensures IsRotation(a, c)
  {
    var i: nat :| i <= |a| && b == Rotate(a, i);
    var j: nat :| j <= |b| && c == Rotate(b, j);
    var k := RotateTwice(a, i, j);
  }

  // ------------------------------------------------------------- lexicographic minimum

  /** The least of the first n rotations. */
  function LeastRotation(b: seq<string>, n: nat): (r: seq<string>)
    requires 1 <= n <= |b|
    ensures IsRotation(b, r)
  {
    if n == 1 then
      assert b == Rotate(b, 0);
      b
    else
      var least, next := LeastRotation(b, n - 1), Rotate(b, n - 1);
      if ListBefore(next, least) then next else least
  }

  lemma {:induction false} LeastIsLeast(b: seq<string>, n: nat, i: nat)
    requires i < n <= |b|
    ensures !ListBefore(Rotate(b, i), LeastRotation(b, n))
    decreases n
  {
    var next := Rotate(b, n - 1);
    if n == 1 {
      assert Rotate(b, 0) == b;
      ListBeforeTotal(b, b);
    } else {
      var least := LeastRotation(b, n - 1);
      ListBeforeTotal(next, next);
      if i < n - 1 {
        LeastIsLeast(b, n - 1, i);
        if ListBefore(next, least) && ListBefore(Rotate(b, i), next) {
          ListBeforeTransitive(Rotate(b, i), next, least);
        }
      }
    }
  }

  /** The representative of a cycle: the least rotation of its body. */
  function Canonical(body: seq<string>): (r: seq<string>)
    requires body != []
    ensures IsRotation(body, r)
  {
    LeastRotation(body, |body|)
  }

  lemma CanonicalIsLeast(body: seq<string>, r: seq<string>)
    requires body != [] && IsRotation(body, r)
    ensures !ListBefore(r, Canonical(body))
  {
    var i: nat :| i <= |body| && r == Rotate(body, i);
    if i == |body| {
      assert Rotate(body, i) == body == Rotate(body, 0);
      LeastIsLeast(body, |body|, 0);
    } else {
      LeastIsLeast(body, |body|, i);
    }
  }

  /** Two cycles have the same key exactly when one is the other entered elsewhere. */
  lemma CanonicalIffRotation(a: seq<string>, b: seq<string>)
    requires a != [] && b != []
    ensures Canonical(a) == Canonical(b) <==> IsRotation(a, b)
  {
    var ca, cb := Canonical(a), Canonical(b);
    if ca == cb {
      RotationSymmetric(b, cb);
      RotationTransitive(a, ca, b);
    }
    if IsRotation(a, b) {
      RotationTransitive(a, b, cb);
      CanonicalIsLeast(a, cb);
      RotationSymmetric(a, b);
      RotationTransitive(b, a, ca);
      CanonicalIsLeast(b, ca);
      ListBeforeTotal(ca, cb);
    }
  }

  // ------------------------------------------------------------------------- search

  /** A path the search may be on. */
  ghost predicate Trail(g: Graph, p: seq<string>) {
    p != [] && |p| <= LIMIT && Walk(g, p) && NoRepeats(p)
  }

  function Last(p: seq<string>): string
    requires p != []
  {
    p[|p| - 1]
  }

  /** Every edge from the end of p back into p has its cycle's key recorded. */
  ghost predicate Closed(g: Graph, seen: set<seq<string>>, p: seq<string>)
    requires p != []
  {
    forall i :: 0 <= i < |p| && p[i] in Neighbours(g, Last(p)) ==> Canonical(p[i..]) in seen
  }

  /** That holds of every trail that starts with `path`. */
  ghost predicate Explored(g: Graph, seen: set<seq<string>>, path: seq<string>) {
    forall p :: Trail(g, p) && path <= p ==> Closed(g, seen, p)
  }

  /** The nodes of a cycle, without the repeated first one. */
  function Body(cycle: seq<string>): seq<string> {
    if cycle == [] then [] else cycle[..|cycle| - 1]
  }

  /** A reported cycle is simple, has at most twelve nodes, and this key. */
  ghost predicate IsReport(g: Graph, cycle: seq<string>, key: seq<string>) {
    SimpleCycle(g, cycle) && |cycle| <= LIMIT + 1 && Canonical(Body(cycle)) == key
  }

  /** One report per key. */
  ghost predicate Reports(g: Graph, cycles: seq<seq<string>>, keys: seq<seq<string>>) {
    && |keys| == |cycles| && NoRepeats(keys)
    && forall i :: 0 <= i < |cycles| ==> IsReport(g, cycles[i], keys[i])
  }

  lemma OneMoreReport(g: Graph, cycles: seq<seq<string>>, keys: seq<seq<string>>, cycle: seq<string>, key: seq<string>)
    requires Reports(g, cycles, keys) && IsReport(g, cycle, key) && key !in SetOf(keys)
    ensures Reports(g, cycles + [cycle], keys + [key]) && SetOf(keys + [key]) == SetOf(keys) + {key}
  {
    SetOfAppend(keys, key);
    NoRepeatsAppend(keys, key);
  }

  lemma ClosesCycle(g: Graph, path: seq<string>, nxt: string)
    requires Trail(g, path) && nxt in path && nxt in Neighbours(g, Last(path))
    ensures var body := path[IndexOf(path, nxt)..];
      Body(body + [nxt]) == body && IsReport(g, body + [nxt], Canonical(body))
  {
    ClosesSimpleCycle(g, path, nxt);
  }

  class CycleFinder {
    const graph: Graph
    var cycles: seq<seq<string>>
    var seen: set<seq<string>>
    /** The keys of the reported cycles, in order. */
    ghost var keys: seq<seq<string>>

    ghost predicate Valid()
      reads this
    {
      Reports(graph, cycles, keys) && seen == SetOf(keys)
    }

    constructor (g: Graph)
      ensures Valid() && graph == g && cycles == []
    {
      graph, cycles, seen, keys := g, [], {}, [];
    }

    /** Record the cycle that an edge from the end of the path back to one of its nodes closes. */
    method Record(path: seq<string>, nxt: string)
      requires Valid() && Trail(graph, path) && nxt in path && nxt in Neighbours(graph, Last(path))
      modifies this
      ensures Valid() && seen == old(seen) + {Canonical(path[IndexOf(path, nxt)..])}
    {
      var start := IndexOf(path, nxt);
      var cycle := path[start..] + [nxt];
      ClosesCycle(graph, path, nxt);
      var key := Canonical(Body(cycle));
      if key !in seen {
        OneMoreReport(graph, cycles, keys, cycle, key);
        seen := seen + {key};
        cycles := cycles + [cycle];
        keys := keys + [key];
      }
    }

    /** Follow every edge out of the end of the path. */
    method Visit(node: string, path: seq<string>)
      requires Valid() && Trail(graph, path) && Last(path) == node
      modifies this
      ensures Valid() && old(seen) <= seen && Explored(graph, seen, path)
      decreases LIMIT - |path|, 1
    {
      var ns := Neighbours(graph, node);
      for i := 0 to |ns|
        invariant Valid() && old(seen) <= seen
        invariant FollowedUpTo(graph, seen, path, ns, i)
      {
        ghost var before := seen;
        Follow(path, ns[i]);
        FollowedNext(graph, before, seen, path, ns, i);
      }
      AllFollowed(graph, seen, path, ns);
    }

    /** One edge: it closes a cycle, or extends the path while it is short enough. */
    method Follow(path: seq<string>, nxt: string)
      requires Valid() && Trail(graph, path) && nxt in Neighbours(graph, Last(path))
      modifies this
      ensures Valid() && old(seen) <= seen && Followed(graph, seen, path, nxt)
      decreases LIMIT - |path|, 0
    {
      if nxt in path {
        Record(path, nxt);
      } else if |path| < LIMIT {
        ExtendTrail(graph, path, nxt);
        Visit(nxt, path + [nxt]);
      }
    }
  }

  lemma ExtendTrail(g: Graph, path: seq<string>, nxt: string)
    requires Trail(g, path) && nxt in Neighbours(g, Last(path)) && nxt !in path && |path| < LIMIT
    ensures Trail(g, path + [nxt])
  {
  }

  /** What following one edge leaves behind. */
  ghost predicate Followed(g: Graph, seen: set<seq<string>>, path: seq<string>, nxt: string) {
    && (nxt in path ==> Canonical(path[IndexOf(path, nxt)..]) in seen)
    && (nxt !in path && |path| < LIMIT ==> Explored(g, seen, path + [nxt]))
  }

  lemma FollowedGrows(g: Graph, seen: set<seq<string>>, seen': set<seq<string>>, path: seq<string>, nxt: string)
    requires Followed(g, seen, path, nxt) && seen <= seen'
    ensures Followed(g, seen', path, nxt)
  {
    if nxt !in path && |path| < LIMIT {
      forall p | Trail(g, p) && path + [nxt] <= p ensures Closed(g, seen', p) {
        assert Closed(g, seen, p);
      }
    }
  }

  ghost predicate FollowedUpTo(g: Graph, seen: set<seq<string>>, path: seq<string>, ns: seq<string>, i: nat) {
    forall j :: 0 <= j < i && j < |ns| ==> Followed(g, seen, path, ns[j])
  }

  lemma FollowedNext(g: Graph, seen: set<seq<string>>, seen': set<seq<string>>, path: seq<string>, ns: seq<string>,
                     i: nat)
    requires FollowedUpTo(g, seen, path, ns, i) && i < |ns| && seen <= seen' && Followed(g, seen', path, ns[i])
    ensures FollowedUpTo(g, seen', path, ns, i + 1)
  {
    forall j | 0 <= j < i ensures Followed(g, seen', path, ns[j]) {
      FollowedGrows(g, seen, seen', path, ns[j]);
    }
  }

  /** Once every edge is followed, every trail through the path is closed. */
  lemma AllFollowed(g: Graph, seen: set<seq<string>>, path: seq<string>, ns: seq<string>)
    requires Trail(g, path) && ns == Neighbours(g, Last(path)) && FollowedUpTo(g, seen, path, ns, |ns|)
    ensures Explored(g, seen, path)
  {
    forall p | Trail(g, p) && path <= p ensures Closed(g, seen, p) {
      if |p| == |path| {
        assert p == path;
        forall i | 0 <= i < |p| && p[i] in Neighbours(g, Last(p)) ensures Canonical(p[i..]) in seen {
          var j :| 0 <= j < |ns| && ns[j] == p[i];
          assert Followed(g, seen, path, p[i]);
          FirstIndex(p, i);
        }
      } else {
        var nxt := p[|path|];
        assert Last(path) == p[|path| - 1];
        assert p[|path| - 1 + 1] in Neighbours(g, p[|path| - 1]);
        var j :| 0 <= j < |ns| && ns[j] == nxt;
        assert Followed(g, seen, path, nxt);
        assert nxt !in path;
        assert path + [nxt] <= p;
      }
    }
  }

  lemma FirstIndex(p: seq<string>, i: nat)
    requires NoRepeats(p) && i < |p|
    ensures IndexOf(p, p[i]) == i
  {
  }

  /** Every simple cycle of at most twelve nodes is reported, once, up to where it is entered. */
  method SearchGraph(g: Graph) returns (cycles: seq<seq<string>>)
    ensures forall i :: 0 <= i < |cycles| ==> SimpleCycle(g, cycles[i]) && |Body(cycles[i])| <= LIMIT
    ensures forall i, j :: 0 <= i < j < |cycles| ==> !IsRotation(Body(cycles[i]), Body(cycles[j]))
    ensures forall c :: SimpleCycle(g, c) && |Body(c)| <= LIMIT ==> ReportedUpToRotation(cycles, c)
  {
    var finder := new CycleFinder(g);
    var todo := g.Keys;
    while todo != {}
      invariant finder.Valid() && finder.graph == g && fresh(finder)
      invariant forall node :: node in g && node !in todo ==> Explored(g, finder.seen, [node])
      decreases todo
    {
      var node :| node in todo;
      todo := todo - {node};
      ghost var before := finder.seen;
      finder.Visit(node, [node]);
      forall other | other in g && other !in todo && other != node ensures Explored(g, finder.seen, [other]) {
        ExploredGrows(g, before, finder.seen, [other]);
      }
    }
    cycles := finder.cycles;
    DifferentKeysDifferentCycles(g, cycles, finder.keys);
    forall c | SimpleCycle(g, c) && |Body(c)| <= LIMIT ensures ReportedUpToRotation(cycles, c) {
      FoundFromItsStart(g, finder.seen, c);
      var i :| 0 <= i < |finder.keys| && finder.keys[i] == Canonical(Body(c));
      assert IsReport(g, cycles[i], finder.keys[i]);
      CanonicalIffRotation(Body(cycles[i]), Body(c));
    }
  }

  ghost predicate ReportedUpToRotation(cycles: seq<seq<string>>, c: seq<string>) {
    exists i :: 0 <= i < |cycles| && IsRotation(Body(cycles[i]), Body(c))
  }

  lemma ExploredGrows(g: Graph, seen: set<seq<string>>, seen': set<seq<string>>, path: seq<string>)
    requires Explored(g, seen, path) && seen <= seen'
    ensures Explored(g, seen', path)
  {
    forall p | Trail(g, p) && path <= p ensures Closed(g, seen', p) {
      assert Closed(g, seen, p);
    }
  }

  lemma DifferentKeysDifferentCycles(g: Graph, cycles: seq<seq<string>>, keys: seq<seq<string>>)
    requires |keys| == |cycles| && NoRepeats(keys) && forall i :: 0 <= i < |cycles| ==> IsReport(g, cycles[i], keys[i])
    ensures forall i, j :: 0 <= i < j < |cycles| ==> !IsRotation(Body(cycles[i]), Body(cycles[j]))
  {
    forall i, j | 0 <= i < j < |cycles| ensures !IsRotation(Body(cycles[i]), Body(cycles[j])) {
      assert IsReport(g, cycles[i], keys[i]) && IsReport(g, cycles[j], keys[j]);
      CanonicalIffRotation(Body(cycles[i]), Body(cycles[j]));
    }
  }

  /** A short simple cycle is a trail from its own first node. */
  lemma FoundFromItsStart(g: Graph, seen: set<seq<string>>, c: seq<string>)
    requires SimpleCycle(g, c) && |Body(c)| <= LIMIT
    requires forall node :: node in g ==> Explored(g, seen, [node])
    ensures Canonical(Body(c)) in seen
  {
    var b := Body(c);
    var n := |b|;
    assert Trail(g, b) by {
      forall i | 0 <= i < n - 1 ensures b[i + 1] in Neighbours(g, b[i]) {
        assert c[i + 1] in Neighbours(g, c[i]);
      }
    }
    assert c[n - 1 + 1] in Neighbours(g, c[n - 1]);
    var i := 0;
    assert c[i + 1] in Neighbours(g, c[i]);
    assert b[0] in g && [b[0]] <= b;
    assert Closed(g, seen, b);
    assert b[0] in Neighbours(g, Last(b)) && b[0..] == b;
  }

  type Edge = (string, string)

  /** The adjacency lists hold the listed edges and no others. */
  ghost predicate HoldsEdges(g: Graph, edges: seq<Edge>) {
    forall u, v :: v in Neighbours(g, u) <==> (u, v) in edges
  }

  lemma AddEdge(g: Graph, edges: seq<Edge>, e: Edge)
    requires HoldsEdges(g, edges)
    ensures HoldsEdges(g[e.0 := Neighbours(g, e.0) + [e.1]], edges + [e])
  {
    var h := g[e.0 := Neighbours(g, e.0) + [e.1]];
    forall u, v ensures v in Neighbours(h, u) <==> (u, v) in edges + [e] {
      assert (u, v) in edges + [e] <==> (u, v) in edges || (u, v) == e;
      assert v in Neighbours(g, u) <==> (u, v) in edges;
      if u == e.0 {
        assert v in Neighbours(h, u) <==> v in Neighbours(g, u) || v == e.1;
      }
    }
  }

  method BuildGraph(edges: seq<Edge>) returns (g: Graph)
    ensures HoldsEdges(g, edges)
  {
    g := map[];
    for i := 0 to |edges|
      invariant HoldsEdges(g, edges[..i])
    {
      var e := edges[i];
      AddEdge(g, edges[..i], e);
      g := g[e.0 := Neighbours(g, e.0) + [e.1]];
      assert edges[..i + 1] == edges[..i] + [e];
    }
    assert edges[..|edges|] == edges;
  }

  /** The checker's report over a list of dependency edges. */
  method FindCycles(edges: seq<Edge>) returns (cycles: seq<seq<string>>, ghost g: Graph)
    ensures HoldsEdges(g, edges)
    ensures forall i :: 0 <= i < |cycles| ==> SimpleCycle(g, cycles[i]) && |Body(cycles[i])| <= 12
    ensures forall i, j :: 0 <= i < j < |cycles| ==> !IsRotation(Body(cycles[i]), Body(cycles[j]))
    ensures forall c :: SimpleCycle(g, c) && |Body(c)| <= 12 ==> ReportedUpToRotation(cycles, c)
  {
    var graph := BuildGraph(edges);
    cycles := SearchGraph(graph);
    g := graph;
  }
}

/** The reach of a beacon, told by paths over the loaded tables. */
module GossipPaths {
  import opened GossipBeacon

  /** A shared lane, an edge into the node or an edge out of it, as the directions allow. */
  ghost predicate Linked(e: Net, u: string, v: string) {
    || (Lateral in e.directions && exists lane :: SharesLane(e, u, v, lane))
    || (Downstream in e.directions && u in e.g.into && v in e.g.into[u])
    || (Upstream in e.directions && u in e.g.out && v in e.g.out[u])
  }

  /** The lane is one of u's and v is a member: an active one, unless deferred ones count or none are listed. */
  ghost predicate SharesLane(e: Net, u: string, v: string, lane: string) {
    && u in e.g.lanesOf && lane in e.g.lanesOf[u]
    && if !e.includeDeferred && lane in e.g.activeLanes then v in e.g.activeLanes[lane]
       else lane in e.g.lanes && v in e.g.lanes[lane]
  }

  ghost predicate IsPath(e: Net, path: seq<string>) {
    forall i :: 0 <= i < |path| - 1 ==> Linked(e, path[i], path[i + 1])
  }

  /** Some path of at most n links leads from the source to v. */
  ghost predicate Reachable(e: Net, src: string, v: string, n: nat) {
    exists path :: Leads(e, path, src, v) && |path| <= n + 1
  }

  ghost predicate Leads(e: Net, path: seq<string>, src: string, v: string) {
    path != [] && path[0] == src && path[|path| - 1] == v && IsPath(e, path)
  }

  lemma LinkedIsOutward(e: Net, u: string, v: string)
    ensures Linked(e, u, v) <==> v in Sideways(e, u) || v in Incident(e, u)
  {
    if Lateral in e.directions && exists lane :: SharesLane(e, u, v, lane) {
      var lane :| SharesLane(e, u, v, lane);
      assert lane in LanesOf(e, u) && v in Members(e, lane);
    }
    if v in Sideways(e, u) {
      var lane :| lane in LanesOf(e, u) && v in Members(e, lane);
      assert SharesLane(e, u, v, lane);
    }
  }

  lemma StepOutward(e: Net, near: set<string>, v: string)
    ensures v in Outward(e, near) <==> v in near || exists u :: u in near && Linked(e, u, v)
  {
    if u :| u in near && Linked(e, u, v) {
      LinkedIsOutward(e, u, v);
      assert v in SidewaysOf(e, near) || v in IncidentOf(e, near);
    }
    if v in SidewaysOf(e, near) {
      var u :| u in near && v in Sideways(e, u);
      LinkedIsOutward(e, u, v);
    }
    if v in IncidentOf(e, near) {
      var u :| u in near && v in Incident(e, u);
      LinkedIsOutward(e, u, v);
    }
  }

  lemma PathExtends(e: Net, path: seq<string>, src: string, u: string, v: string)
    requires Leads(e, path, src, u) && Linked(e, u, v)
    ensures Leads(e, path + [v], src, v)
  {
    var longer := path + [v];
    forall i | 0 <= i < |longer| - 1 ensures Linked(e, longer[i], longer[i + 1]) {
      if i < |path| - 1 {
        assert Linked(e, path[i], path[i + 1]);
      }
    }
  }

  lemma {:induction false} WithinHasPath(e: Net, src: string, v: string, n: nat)
    requires v in Within(e, src, n)
    ensures Reachable(e, src, v, n)
    decreases n
  {
    if n == 0 {
      assert Leads(e, [src], src, v);
    } else {
      var m: nat := n - 1;
      WithinStep(e, src, m);
      StepOutward(e, Within(e, src, m), v);
      if v in Within(e, src, m) {
        WithinHasPath(e, src, v, m);
        var path :| Leads(e, path, src, v) && |path| <= m + 1;
        assert |path| <= n + 1;
      } else {
        var u :| u in Within(e, src, m) && Linked(e, u, v);
        WithinHasPath(e, src, u, m);
        var path :| Leads(e, path, src, u) && |path| <= m + 1;
        PathExtends(e, path, src, u, v);
      }
    }
  }

  lemma {:induction false} PathStaysWithin(e: Net, path: seq<string>, src: string, v: string, n: nat)
    requires Leads(e, path, src, v) && |path| <= n + 1
    ensures v in Within(e, src, n)
    decreases n, |path|
  {
    if n > 0 {
      var m: nat := n - 1;
      WithinStep(e, src, m);
      StepOutward(e, Within(e, src, m), v);
      if |path| <= n {
        PathStaysWithin(e, path, src, v, m);
      } else {
        var k := |path| - 1;
        PathShortens(e, path, src, v);
        PathStaysWithin(e, path[..k], src, path[k - 1], m);
      }
    }
  }

  lemma PathShortens(e: Net, path: seq<string>, src: string, v: string)
    requires Leads(e, path, src, v) && |path| >= 2
    ensures var k := |path| - 1; Leads(e, path[..k], src, path[k - 1]) && Linked(e, path[k - 1], v)
  {
    var k := |path| - 1;
    forall i | 0 <= i < k - 1 ensures Linked(e, path[..k][i], path[..k][i + 1]) {
      assert Linked(e, path[i], path[i + 1]);
    }
    assert Linked(e, path[k - 1], path[k - 1 + 1]);
  }

  /** A beacon reaches a repository within n hops exactly when a path of at most n links leads there. */
  lemma ReachedIffPath(e: Net, src: string, v: string, n: nat)
    ensures v in Within(e, src, n) <==> Reachable(e, src, v, n)
  {
    if v in Within(e, src, n) {
      WithinHasPath(e, src, v, n);
    }
    if path :| Leads(e, path, src, v) && |path| <= n + 1 {
      PathStaysWithin(e, path, src, v, n);
    }
  }
}

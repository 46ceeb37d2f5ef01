/**
  The gossip beacon: percolate a change over lanes (hyperedges) and a directed
  skeleton, layer by layer, each repository once.
 */
module GossipBeacon {
  import opened Common

  datatype Direction = Self | Lateral | Downstream | Upstream

  datatype Hop = Hop(repo: string, direction: Direction, hop: nat, via: Option<string>, lane: Option<string>)

  /** Loaded tables, every collection in sorted order. */
  datatype Hypergraph = Hypergraph(lanesOf: map<string, seq<string>>, lanes: map<string, seq<string>>,
                                   activeLanes: map<string, seq<string>>,
                                   into: map<string, seq<string>>, out: map<string, seq<string>>)

  /** What a beacon travels on: the tables, the directions asked for, and whether deferred members count. */
  datatype Net = Net(g: Hypergraph, directions: set<Direction>, includeDeferred: bool)

  function Get(table: map<string, seq<string>>, key: string): seq<string> {
    if key in table then table[key] else []
  }

  function Members(e: Net, lane: string): seq<string> {
    if e.includeDeferred then Get(e.g.lanes, lane)
    else if lane in e.g.activeLanes then e.g.activeLanes[lane]
    else Get(e.g.lanes, lane)
  }

  function LanesOf(e: Net, node: string): seq<string> {
    if Lateral in e.directions then Get(e.g.lanesOf, node) else []
  }

  function Below(e: Net, node: string): seq<string> {
    if Downstream in e.directions then Get(e.g.into, node) else []
  }

  function Above(e: Net, node: string): seq<string> {
    if Upstream in e.directions then Get(e.g.out, node) else []
  }

  /** The members of the listed lanes. */
  ghost function Mates(e: Net, lanes: seq<string>): set<string> {
    set lane, v | lane in lanes && v in Members(e, lane) :: v
  }

  /** The repositories that share a lane with a node. */
  ghost function Sideways(e: Net, node: string): set<string> {
    Mates(e, LanesOf(e, node))
  }

  ghost function Incident(e: Net, node: string): set<string> {
    SetOf(Below(e, node)) + SetOf(Above(e, node))
  }

  ghost function SidewaysOf(e: Net, nodes: set<string>): set<string> {
    set u, v | u in nodes && v in Sideways(e, u) :: v
  }

  ghost function IncidentOf(e: Net, nodes: set<string>): set<string> {
    set u, v | u in nodes && v in Incident(e, u) :: v
  }

  // -------------------------------------------------------------------- reference

  ghost function Iterate<T>(f: T -> T, x: T, n: nat): T {
    if n == 0 then x else f(Iterate(f, x, n - 1))
  }

  /** One step outwards from a set of repositories. */
  ghost function Outward(e: Net, near: set<string>): set<string> {
    near + SidewaysOf(e, near) + IncidentOf(e, near)
  }

  /** The repositories within n steps of the source. */
  ghost function Within(e: Net, src: string, n: nat): set<string> {
    Iterate(near => Outward(e, near), {src}, n)
  }

  /** The repositories at distance exactly n. */
  ghost function Layer(e: Net, src: string, n: nat): set<string> {
    if n == 0 then {src} else Within(e, src, n) - Within(e, src, n - 1)
  }

  /** The lane is the first of the node's lanes that leads to the repository. */
  ghost predicate FirstLane(e: Net, node: string, lane: string, repo: string) {
    exists i :: 0 <= i < |LanesOf(e, node)| && LaneAt(e, node, lane, repo, i)
  }

  ghost predicate LaneAt(e: Net, node: string, lane: string, repo: string, i: nat)
    requires i < |LanesOf(e, node)|
  {
    LanesOf(e, node)[i] == lane && repo in Members(e, lane) && repo !in Mates(e, LanesOf(e, node)[..i])
  }

  /**
    How a record says its repository was found from a layer: through a lane of it
    whenever one leads there, otherwise along an edge, downstream before upstream.
   */
  ghost predicate FoundFrom(e: Net, layer: set<string>, r: Hop) {
    && r.via.Some? && r.via.value in layer
    && (r.direction == Lateral <==> r.repo in SidewaysOf(e, layer))
    && match r.direction
       case Self => false
       case Lateral => r.lane.Some? && FirstLane(e, r.via.value, r.lane.value, r.repo)
       case Downstream => r.lane.None? && r.repo in Below(e, r.via.value)
       case Upstream => r.lane.None? && r.repo in Above(e, r.via.value) && r.repo !in Below(e, r.via.value)
  }

  /** A correct record: the shortest distance, and found from the layer one step closer. */
  ghost predicate HopOk(e: Net, src: string, r: Hop) {
    if r.hop == 0 then r == Hop(src, Self, 0, None, None)
    else r.repo in Layer(e, src, r.hop) && FoundFrom(e, Layer(e, src, r.hop - 1), r)
  }

  ghost function Repos(hops: seq<Hop>): (s: seq<string>)
    ensures |s| == |hops|
  {
    seq(|hops|, i requires 0 <= i < |hops| => hops[i].repo)
  }

  /** Only the last layer can reach the next one. */
  lemma StepFromLayer(e: Net, src: string, n: nat)
    ensures Within(e, src, n + 1)
            == Within(e, src, n) + SidewaysOf(e, Layer(e, src, n)) + IncidentOf(e, Layer(e, src, n))
  {
    WithinStep(e, src, n);
    if n > 0 {
      InnerReachesNothing(e, src, n - 1);
    }
  }

  lemma InnerReachesNothing(e: Net, src: string, m: nat)
    ensures SidewaysOf(e, Within(e, src, m)) <= Within(e, src, m + 1)
            && IncidentOf(e, Within(e, src, m)) <= Within(e, src, m + 1)
    ensures var near, layer := Within(e, src, m + 1), Layer(e, src, m + 1);
      Outward(e, near) == near + SidewaysOf(e, layer) + IncidentOf(e, layer)
  {
    WithinStep(e, src, m);
    OuterPart(e, Within(e, src, m), Within(e, src, m + 1));
  }

  lemma OuterPart(e: Net, inner: set<string>, near: set<string>)
    requires inner <= near && SidewaysOf(e, inner) <= near && IncidentOf(e, inner) <= near
    ensures Outward(e, near) == near + SidewaysOf(e, near - inner) + IncidentOf(e, near - inner)
  {
    forall v | v in SidewaysOf(e, near) ensures v in near || v in SidewaysOf(e, near - inner) {
      var u :| u in near && v in Sideways(e, u);
      if u in inner {
        assert v in SidewaysOf(e, inner);
      }
    }
    forall v | v in IncidentOf(e, near) ensures v in near || v in IncidentOf(e, near - inner) {
      var u :| u in near && v in Incident(e, u);
      if u in inner {
        assert v in IncidentOf(e, inner);
      }
    }
  }

  lemma WithinStep(e: Net, src: string, n: nat)
    ensures Within(e, src, n + 1) == Outward(e, Within(e, src, n))
  {
  }

  lemma WithinGrows(e: Net, src: string, n: nat)
    ensures Within(e, src, n) <= Within(e, src, n + 1)
  {
    WithinStep(e, src, n);
  }

  lemma {:induction false} FixpointStays<T>(f: T -> T, x: T, n: nat, m: nat)
    requires Iterate(f, x, n + 1) == Iterate(f, x, n)
    requires m >= n
    ensures Iterate(f, x, m) == Iterate(f, x, n)
    decreases m
  {
    if m > n {
      FixpointStays(f, x, n, m - 1);
    }
  }

  /** Once a step adds nothing, no later step does. */
  lemma ClosedStays(e: Net, src: string, n: nat, m: nat)
    requires Within(e, src, n + 1) == Within(e, src, n)
    requires m >= n
    ensures Within(e, src, m) == Within(e, src, n)
  {
    FixpointStays(near => Outward(e, near), {src}, n, m);
  }

  // -------------------------------------------------------------------- the beacon

  /** A log that lists each seen repository once (the source only when `self` is asked for), all records being `ok`. */
  ghost predicate IsLog(self: bool, src: string, seen: set<string>, hops: seq<Hop>, ok: Hop -> bool) {
    && NoRepeats(Repos(hops))
    && SetOf(Repos(hops)) == seen - (if self then {} else {src})
    && (forall i :: 0 <= i < |hops| ==> ok(hops[i]))
  }

  ghost predicate NearestFirst(hops: seq<Hop>) {
    forall i, j :: 0 <= i < j < |hops| ==> hops[i].hop <= hops[j].hop
  }

  /** Records in order of distance, none further than h. */
  ghost predicate Paced(hops: seq<Hop>, h: nat) {
    NearestFirst(hops) && forall i :: 0 <= i < |hops| ==> hops[i].hop <= h
  }

  lemma PacedAppend(hops: seq<Hop>, r: Hop)
    requires Paced(hops, r.hop)
    ensures Paced(hops + [r], r.hop)
  {
  }

  /** Found from `layer` on hop number `hop`, outside `near`. */
  ghost predicate Fresh(e: Net, hop: nat, near: set<string>, layer: set<string>, r: Hop) {
    r.hop == hop && r.repo !in near && FoundFrom(e, layer, r)
  }

  /** On this hop every fresh record is a correct one. */
  ghost predicate FreshIsOk(e: Net, hop: nat, near: set<string>, layer: set<string>, ok: Hop -> bool) {
    forall r :: Fresh(e, hop, near, layer, r) ==> ok(r)
  }

  lemma StartLog(self: bool, src: string, ok: Hop -> bool)
    requires ok(Hop(src, Self, 0, None, None))
    ensures IsLog(self, src, {src}, if self then [Hop(src, Self, 0, None, None)] else [], ok)
  {
    assert Repos([Hop(src, Self, 0, None, None)]) == [src];
    assert SetOf([src]) == {src};
    assert Repos([]) == [];
    assert SetOf<string>([]) == {};
  }

  lemma LogAppend(self: bool, src: string, seen: set<string>, hops: seq<Hop>, ok: Hop -> bool, r: Hop)
    requires IsLog(self, src, seen, hops, ok) && src in seen
    requires r.repo !in seen && ok(r)
    ensures IsLog(self, src, seen + {r.repo}, hops + [r], ok)
  {
    var s := Repos(hops);
    assert Repos(hops + [r]) == s + [r.repo];
    SetOfAppend(s, r.repo);
    assert r.repo !in SetOf(s);
    NoRepeatsAppend(s, r.repo);
  }

  lemma SidewaysFound(e: Net, layer: set<string>, r: Hop, i: nat)
    requires r.direction == Lateral && r.via.Some? && r.lane.Some? && r.via.value in layer
    requires i < |LanesOf(e, r.via.value)| && LaneAt(e, r.via.value, r.lane.value, r.repo, i)
    ensures FoundFrom(e, layer, r)
  {
    assert r.lane.value in LanesOf(e, r.via.value);
    assert r.repo in Sideways(e, r.via.value);
  }

  /** On the matching hop, fresh records carry the shortest distance. */
  lemma FreshIsShortest(e: Net, src: string, n: nat)
    ensures FreshIsOk(e, n + 1, Within(e, src, n), Layer(e, src, n), r => HopOk(e, src, r))
  {
    var near, layer := Within(e, src, n), Layer(e, src, n);
    StepFromLayer(e, src, n);
    forall r | Fresh(e, n + 1, near, layer, r) ensures HopOk(e, src, r) {
      FoundIsNext(e, layer, r);
    }
  }

  lemma FoundIsNext(e: Net, layer: set<string>, r: Hop)
    requires FoundFrom(e, layer, r)
    ensures r.repo in SidewaysOf(e, layer) + IncidentOf(e, layer)
  {
    if r.direction != Lateral {
      assert r.repo in Incident(e, r.via.value);
    }
  }

  lemma MatesAppend(e: Net, lanes: seq<string>, i: nat)
    requires i < |lanes|
    ensures Mates(e, lanes[..i + 1]) == Mates(e, lanes[..i]) + SetOf(Members(e, lanes[i]))
  {
    assert lanes[..i + 1] == lanes[..i] + [lanes[i]];
  }

  lemma UnionAppend(e: Net, nodes: seq<string>, i: nat)
    requires i < |nodes|
    ensures SidewaysOf(e, SetOf(nodes[..i + 1])) == SidewaysOf(e, SetOf(nodes[..i])) + Sideways(e, nodes[i])
    ensures IncidentOf(e, SetOf(nodes[..i + 1])) == IncidentOf(e, SetOf(nodes[..i])) + Incident(e, nodes[i])
  {
    assert nodes[..i + 1] == nodes[..i] + [nodes[i]];
    SetOfAppend(nodes[..i], nodes[i]);
  }

  // -------------------------------------------------------------------- who found it first

  /** The repositories recorded at distance h, in order. */
  ghost function HopRepos(hops: seq<Hop>, h: nat): seq<string> {
    if hops == [] then []
    else
      var n := |hops| - 1;
      HopRepos(hops[..n], h) + (if hops[n].hop == h then [hops[n].repo] else [])
  }

  /**
    No repository recorded one step closer and before the record's own `via`
    leads to it: by a lane if it was found by one, by an edge otherwise.
   */
  ghost predicate FirstFrom(e: Net, before: seq<Hop>, r: Hop) {
    r.hop > 0 ==> r.via.Some? && forall u {:trigger Ahead(before, u, r.hop, r.via.value)} ::
      0 <= u < |before| && Ahead(before, u, r.hop, r.via.value) ==>
      r.repo !in (if r.direction == Lateral then Sideways(e, before[u].repo) else Incident(e, before[u].repo))
  }

  /** Record u is one step closer than hop and comes before that of `via`. */
  ghost predicate Ahead(before: seq<Hop>, u: nat, hop: nat, via: string) {
    u < |before| && before[u].hop + 1 == hop && via !in Repos(before[..u + 1])
  }

  ghost predicate TracedAt(e: Net, hops: seq<Hop>, i: nat) {
    i < |hops| && FirstFrom(e, hops[..i], hops[i])
  }

  ghost predicate Traced(e: Net, hops: seq<Hop>) {
    forall i :: 0 <= i < |hops| ==> TracedAt(e, hops, i)
  }

  /** All repositories one step closer and ahead of `via` are done with. */
  ghost predicate Passed(hops: seq<Hop>, hop: nat, via: string, done: set<string>) {
    forall u {:trigger Ahead(hops, u, hop, via)} ::
      0 <= u < |hops| && Ahead(hops, u, hop, via) ==> hops[u].repo in done
  }

  /** Only records of this hop have been added. */
  ghost predicate Grown(before: seq<Hop>, after: seq<Hop>, hop: nat) {
    before <= after && forall i :: |before| <= i < |after| ==> after[i].hop == hop
  }

  lemma PassedGrown(before: seq<Hop>, after: seq<Hop>, hop: nat, via: string, done: set<string>)
    requires Grown(before, after, hop) && Passed(before, hop, via, done)
    ensures Passed(after, hop, via, done)
  {
    forall u | 0 <= u < |after| && Ahead(after, u, hop, via) ensures after[u].repo in done {
      assert u < |before|;
      assert after[..u + 1] == before[..u + 1];
      assert Ahead(before, u, hop, via);
    }
  }

  lemma {:induction false} HopReposGrown(before: seq<Hop>, after: seq<Hop>, hop: nat, h: nat)
    requires Grown(before, after, hop) && h != hop
    ensures HopRepos(after, h) == HopRepos(before, h)
    decreases |after|
  {
    if |after| == |before| {
      assert after == before;
    } else {
      var n := |after| - 1;
      assert Grown(before, after[..n], hop);
      HopReposGrown(before, after[..n], hop, h);
    }
  }

  lemma {:induction false} NoneBeyond(hops: seq<Hop>, h: nat)
    requires forall i :: 0 <= i < |hops| ==> hops[i].hop < h
    ensures HopRepos(hops, h) == []
    decreases |hops|
  {
    if hops != [] {
      NoneBeyond(hops[..|hops| - 1], h);
    }
  }

  lemma {:induction false} HopReposPrefix(hops: seq<Hop>, h: nat, k: nat)
    requires k <= |hops|
    ensures HopRepos(hops[..k], h) <= HopRepos(hops, h)
    decreases |hops|
  {
    if k == |hops| {
      assert hops[..k] == hops;
    } else {
      var n := |hops| - 1;
      HopReposPrefix(hops[..n], h, k);
      assert hops[..n][..k] == hops[..k];
    }
  }

  lemma {:induction false} HopReposListed(hops: seq<Hop>, h: nat, x: string)
    requires x in HopRepos(hops, h)
    ensures x in Repos(hops)
    decreases |hops|
  {
    var n := |hops| - 1;
    assert Repos(hops) == Repos(hops[..n]) + [hops[n].repo];
    if x in HopRepos(hops[..n], h) {
      HopReposListed(hops[..n], h, x);
    }
  }

  /** In the order of the records, whoever is ahead of a repository of the frontier is earlier in it. */
  lemma FrontierPassed(hops: seq<Hop>, h: nat, frontier: seq<string>, i: nat)
    requires HopRepos(hops, h) == frontier && i < |frontier|
    ensures Passed(hops, h + 1, frontier[i], SetOf(frontier[..i]))
  {
    forall u | 0 <= u < |hops| && Ahead(hops, u, h + 1, frontier[i]) ensures hops[u].repo in SetOf(frontier[..i]) {
      AheadIsEarlier(hops, h, frontier, i, u);
    }
  }

  lemma AheadIsEarlier(hops: seq<Hop>, h: nat, frontier: seq<string>, i: nat, u: nat)
    requires HopRepos(hops, h) == frontier && i < |frontier| && Ahead(hops, u, h + 1, frontier[i])
    ensures hops[u].repo in frontier[..i]
  {
    var upto := HopRepos(hops[..u + 1], h);
    HopReposPrefix(hops, h, u + 1);
    assert hops[..u + 1][..u] == hops[..u];
    assert upto[|upto| - 1] == hops[u].repo;
    if i < |upto| {
      assert upto[i] == frontier[i];
      HopReposListed(hops[..u + 1], h, frontier[i]);
      assert false;
    }
    assert frontier[..i][|upto| - 1] == hops[u].repo;
  }

  lemma PassedIsFirst(e: Net, hops: seq<Hop>, r: Hop, done: set<string>, seen: set<string>)
    requires r.via.Some? && Passed(hops, r.hop, r.via.value, done) && r.repo !in seen
    requires if r.direction == Lateral then SidewaysOf(e, done) <= seen else IncidentOf(e, done) <= seen
    ensures FirstFrom(e, hops, r)
  {
    forall u | 0 <= u < |hops| && Ahead(hops, u, r.hop, r.via.value)
      ensures r.repo !in (if r.direction == Lateral then Sideways(e, hops[u].repo) else Incident(e, hops[u].repo))
    {
      assert hops[u].repo in done;
      assert forall v :: v in Sideways(e, hops[u].repo) ==> v in SidewaysOf(e, done);
      assert forall v :: v in Incident(e, hops[u].repo) ==> v in IncidentOf(e, done);
    }
  }

  lemma TracedAppend(e: Net, hops: seq<Hop>, r: Hop)
    requires Traced(e, hops) && FirstFrom(e, hops, r)
    ensures Traced(e, hops + [r])
  {
    var after := hops + [r];
    forall i | 0 <= i < |after| ensures TracedAt(e, after, i) {
      if i < |hops| {
        assert TracedAt(e, hops, i) && after[..i] == hops[..i];
      } else {
        assert after[..i] == hops;
      }
    }
  }

  /** One more record of the current hop. */
  lemma HopAppend(hops: seq<Hop>, nxt: seq<string>, r: Hop)
    requires Paced(hops, r.hop) && nxt == HopRepos(hops, r.hop)
    ensures Paced(hops + [r], r.hop) && nxt + [r.repo] == HopRepos(hops + [r], r.hop)
    ensures Grown(hops, hops + [r], r.hop)
  {
    PacedAppend(hops, r);
    HopReposAppend(hops, r);
  }

  lemma HopReposAppend(hops: seq<Hop>, r: Hop)
    ensures HopRepos(hops + [r], r.hop) == HopRepos(hops, r.hop) + [r.repo]
  {
    var after := hops + [r];
    assert after[..|after| - 1] == hops;
  }

  lemma TracedNext(e: Net, hops: seq<Hop>, r: Hop, done: set<string>, seen: set<string>)
    requires r.via.Some? && Passed(hops, r.hop, r.via.value, done) && r.repo !in seen && Traced(e, hops)
    requires if r.direction == Lateral then SidewaysOf(e, done) <= seen else IncidentOf(e, done) <= seen
    ensures Traced(e, hops + [r])
  {
    PassedIsFirst(e, hops, r, done, seen);
    TracedAppend(e, hops, r);
  }

  /** What was seen beyond `near` is listed in `nxt`, and all of it is logged and traced. */
  ghost predicate Sound(e: Net, src: string, ok: Hop -> bool, near: set<string>, seen: set<string>, nxt: seq<string>,
                        hops: seq<Hop>)
  {
    && src in near && near <= seen
    && SetOf(nxt) == seen - near
    && IsLog(Self in e.directions, src, seen, hops, ok) && Traced(e, hops)
  }

  lemma SoundAppend(e: Net, src: string, ok: Hop -> bool, near: set<string>, seen: set<string>, nxt: seq<string>,
                    hops: seq<Hop>, r: Hop, done: set<string>)
    requires Sound(e, src, ok, near, seen, nxt, hops) && r.repo !in seen && ok(r)
    requires r.via.Some? && Passed(hops, r.hop, r.via.value, done)
    requires if r.direction == Lateral then SidewaysOf(e, done) <= seen else IncidentOf(e, done) <= seen
    ensures Sound(e, src, ok, near, seen + {r.repo}, nxt + [r.repo], hops + [r])
  {
    LogAppend(Self in e.directions, src, seen, hops, ok, r);
    TracedNext(e, hops, r, done, seen);
    SetOfAppend(nxt, r.repo);
  }

  class Beacon {
    const e: Net
    const src: string
    ghost const ok: Hop -> bool
    var seen: set<string>
    var nxt: seq<string>
    var hops: seq<Hop>

    /** The state while looking beyond the repositories of `near`. */
    ghost predicate Valid(near: set<string>)
      reads this
    {
      Sound(e, src, ok, near, seen, nxt, hops)
    }

    /** Recording hop number `hop`. */
    ghost predicate OnHop(hop: nat)
      reads this
    {
      Paced(hops, hop) && nxt == HopRepos(hops, hop)
    }

    /** Everything before `via` in the order of the records is done with, and what it leads to is seen. */
    ghost predicate Turn(r: Hop, done: set<string>)
      reads this
    {
      && r.via.Some? && r.hop > 0 && Passed(hops, r.hop, r.via.value, done)
      && (if r.direction == Lateral then SidewaysOf(e, done) <= seen else IncidentOf(e, done) <= seen)
    }

    constructor (e: Net, src: string, ghost ok: Hop -> bool)
      requires ok(Hop(src, Self, 0, None, None))
      ensures this.e == e && this.src == src && this.ok == ok
      ensures Valid({src}) && seen == {src} && Paced(hops, 0)
    {
      this.e, this.src, this.ok := e, src, ok;
      seen, nxt := {src}, [];
      hops := if Self in e.directions then [Hop(src, Self, 0, None, None)] else [];
      new;
      StartLog(Self in e.directions, src, ok);
    }

    /** Record a repository the first time it is reached. */
    method Reach(r: Hop, ghost near: set<string>, ghost done: set<string>)
      requires Valid(near) && OnHop(r.hop) && Turn(r, done)
      requires r.repo !in seen ==> ok(r)
      modifies this
      ensures Valid(near) && OnHop(r.hop) && Grown(old(hops), hops, r.hop)
      ensures seen == old(seen) + {r.repo}
    {
      if r.repo !in seen {
        Record(r, near, done);
      }
    }

    method Record(r: Hop, ghost near: set<string>, ghost done: set<string>)
      requires Valid(near) && OnHop(r.hop) && Turn(r, done)
      requires r.repo !in seen && ok(r)
      modifies this
      ensures Valid(near) && OnHop(r.hop) && Grown(old(hops), hops, r.hop)
      ensures seen == old(seen) + {r.repo}
    {
      SoundAppend(e, src, ok, near, seen, nxt, hops, r, done);
      HopAppend(hops, nxt, r);
      seen := seen + {r.repo};
      nxt := nxt + [r.repo];
      hops := hops + [r];
    }

    /** Record the peers of one list, with everything but the repository given by `r`. */
    method ReachAll(peers: seq<string>, r: Hop, ghost near: set<string>, ghost done: set<string>)
      requires Valid(near) && OnHop(r.hop) && Turn(r, done)
      requires forall i :: 0 <= i < |peers| && peers[i] !in seen ==> ok(r.(repo := peers[i]))
      modifies this
      ensures Valid(near) && OnHop(r.hop) && Grown(old(hops), hops, r.hop)
      ensures seen == old(seen) + SetOf(peers)
    {
      for i := 0 to |peers|
        invariant Valid(near) && OnHop(r.hop) && Grown(old(hops), hops, r.hop)
        invariant seen == old(seen) + SetOf(peers[..i])
      {
        PassedGrown(old(hops), hops, r.hop, r.via.value, done);
        Reach(r.(repo := peers[i]), near, done);
        assert peers[..i + 1] == peers[..i] + [peers[i]];
        SetOfAppend(peers[..i], peers[i]);
      }
      assert peers[..|peers|] == peers;
    }

    /** Everyone who shares a lane with `node`. */
    method ReachSideways(node: string, hop: nat, ghost near: set<string>, ghost layer: set<string>,
                         ghost done: set<string>)
      requires Valid(near) && OnHop(hop) && node in layer && FreshIsOk(e, hop, near, layer, ok)
      requires hop > 0 && Passed(hops, hop, node, done) && SidewaysOf(e, done) <= seen
      modifies this
      ensures Valid(near) && OnHop(hop) && Grown(old(hops), hops, hop)
      ensures seen == old(seen) + Sideways(e, node)
    {
      var lanes := LanesOf(e, node);
      for i := 0 to |lanes|
        invariant Valid(near) && OnHop(hop) && Grown(old(hops), hops, hop)
        invariant seen == old(seen) + Mates(e, lanes[..i])
      {
        PassedGrown(old(hops), hops, hop, node, done);
        ReachLane(node, hop, lanes, i, near, layer, done);
        MatesAppend(e, lanes, i);
      }
      assert lanes[..|lanes|] == lanes;
    }

    /** The members of one lane of `node`. */
    method ReachLane(node: string, hop: nat, lanes: seq<string>, i: nat, ghost near: set<string>,
                     ghost layer: set<string>, ghost done: set<string>)
      requires Valid(near) && OnHop(hop) && node in layer && FreshIsOk(e, hop, near, layer, ok)
      requires hop > 0 && Passed(hops, hop, node, done) && SidewaysOf(e, done) <= seen
      requires lanes == LanesOf(e, node) && i < |lanes| && Mates(e, lanes[..i]) <= seen
      modifies this
      ensures Valid(near) && OnHop(hop) && Grown(old(hops), hops, hop)
      ensures seen == old(seen) + SetOf(Members(e, lanes[i]))
    {
      var r := Hop("", Lateral, hop, Some(node), Some(lanes[i]));
      var members := Members(e, lanes[i]);
      forall j | 0 <= j < |members| && members[j] !in seen ensures ok(r.(repo := members[j])) {
        SidewaysFound(e, layer, r.(repo := members[j]), i);
        assert Fresh(e, hop, near, layer, r.(repo := members[j]));
      }
      ReachAll(members, r, near, done);
    }

    /** Everyone on an edge with `node`, once the lanes of the layer have been walked. */
    method ReachIncident(node: string, hop: nat, ghost near: set<string>, ghost layer: set<string>,
                         ghost done: set<string>)
      requires Valid(near) && OnHop(hop) && node in layer && FreshIsOk(e, hop, near, layer, ok)
      requires SidewaysOf(e, layer) <= seen && hop > 0 && Passed(hops, hop, node, done) && IncidentOf(e, done) <= seen
      modifies this
      ensures Valid(near) && OnHop(hop) && Grown(old(hops), hops, hop)
      ensures seen == old(seen) + Incident(e, node)
    {
      var r := Hop("", Downstream, hop, Some(node), None);
      ReachEdges(Below(e, node), r, near, layer, done);
      PassedGrown(old(hops), hops, hop, node, done);
      r := Hop("", Upstream, hop, Some(node), None);
      ReachEdges(Above(e, node), r, near, layer, done);
    }

    method ReachEdges(peers: seq<string>, r: Hop, ghost near: set<string>, ghost layer: set<string>,
                      ghost done: set<string>)
      requires Valid(near) && OnHop(r.hop) && FreshIsOk(e, r.hop, near, layer, ok) && Turn(r, done)
      requires SidewaysOf(e, layer) <= seen
      requires r.via.Some? && r.via.value in layer && r.lane.None?
      requires (r.direction == Downstream && peers == Below(e, r.via.value))
               || (r.direction == Upstream && peers == Above(e, r.via.value) && SetOf(Below(e, r.via.value)) <= seen)
      modifies this
      ensures Valid(near) && OnHop(r.hop) && Grown(old(hops), hops, r.hop)
      ensures seen == old(seen) + SetOf(peers)
    {
      forall j | 0 <= j < |peers| && peers[j] !in seen ensures ok(r.(repo := peers[j])) {
        assert peers[j] !in SetOf(Below(e, r.via.value)) || r.direction == Downstream;
        assert Fresh(e, r.hop, near, layer, r.(repo := peers[j]));
      }
      ReachAll(peers, r, near, done);
    }

    /** The frontier is in the order of the records, so that its nodes take turns. */
    ghost predicate InTurn(frontier: seq<string>, hop: nat)
      reads this
    {
      forall i :: 0 <= i < |frontier| ==> Passed(hops, hop, frontier[i], SetOf(frontier[..i]))
    }

    /** Everyone who shares a lane with a node of the frontier. */
    method SpreadSideways(frontier: seq<string>, hop: nat, ghost near: set<string>, ghost layer: set<string>)
      requires Valid(near) && OnHop(hop) && hop > 0 && InTurn(frontier, hop)
      requires SetOf(frontier) == layer && FreshIsOk(e, hop, near, layer, ok)
      modifies this
      ensures Valid(near) && OnHop(hop) && Grown(old(hops), hops, hop)
      ensures seen == old(seen) + SidewaysOf(e, layer)
    {
      for i := 0 to |frontier|
        invariant Valid(near) && OnHop(hop) && Grown(old(hops), hops, hop)
        invariant seen == old(seen) + SidewaysOf(e, SetOf(frontier[..i]))
      {
        assert frontier[i] in SetOf(frontier);
        PassedGrown(old(hops), hops, hop, frontier[i], SetOf(frontier[..i]));
        ReachSideways(frontier[i], hop, near, layer, SetOf(frontier[..i]));
        UnionAppend(e, frontier, i);
      }
      assert frontier[..|frontier|] == frontier;
    }

    /** Everyone on an edge with a node of the frontier. */
    method SpreadIncident(frontier: seq<string>, hop: nat, ghost near: set<string>, ghost layer: set<string>)
      requires Valid(near) && OnHop(hop) && hop > 0 && InTurn(frontier, hop) && SidewaysOf(e, layer) <= seen
      requires SetOf(frontier) == layer && FreshIsOk(e, hop, near, layer, ok)
      modifies this
      ensures Valid(near) && OnHop(hop) && Grown(old(hops), hops, hop)
      ensures seen == old(seen) + IncidentOf(e, layer)
    {
      for i := 0 to |frontier|
        invariant Valid(near) && OnHop(hop) && Grown(old(hops), hops, hop)
        invariant seen == old(seen) + IncidentOf(e, SetOf(frontier[..i]))
      {
        assert frontier[i] in SetOf(frontier);
        PassedGrown(old(hops), hops, hop, frontier[i], SetOf(frontier[..i]));
        ReachIncident(frontier[i], hop, near, layer, SetOf(frontier[..i]));
        UnionAppend(e, frontier, i);
      }
      assert frontier[..|frontier|] == frontier;
    }

    /** One hop: lanes of the whole frontier first, then its edges. */
    method Spread(frontier: seq<string>, hop: nat, ghost near: set<string>, ghost layer: set<string>)
      requires Valid(near) && seen == near && OnHop(hop) && hop > 0 && InTurn(frontier, hop)
      requires SetOf(frontier) == layer && FreshIsOk(e, hop, near, layer, ok)
      modifies this
      ensures Valid(near) && OnHop(hop) && seen == near + SidewaysOf(e, layer) + IncidentOf(e, layer)
    {
      SpreadSideways(frontier, hop, near, layer);
      forall i | 0 <= i < |frontier| ensures Passed(hops, hop, frontier[i], SetOf(frontier[..i])) {
        PassedGrown(old(hops), hops, hop, frontier[i], SetOf(frontier[..i]));
      }
      SpreadIncident(frontier, hop, near, layer);
    }

    /** Everything within n hops has been seen and logged. */
    ghost predicate Around(n: nat)
      reads this
    {
      Valid(Within(e, src, n)) && seen == Within(e, src, n) && Paced(hops, n)
    }

    /** The frontier lists the records at distance n in order. */
    ghost predicate IsFrontier(frontier: seq<string>, n: nat)
      reads this
    {
      SetOf(frontier) == Layer(e, src, n) && if n == 0 then frontier == [src] else frontier == HopRepos(hops, n)
    }

    /** Hop number n + 1 is next. */
    ghost predicate At(frontier: seq<string>, n: nat)
      reads this
    {
      Around(n) && ok == (r => HopOk(e, src, r)) && IsFrontier(frontier, n)
    }

    lemma AtSource()
      requires Around(0) && ok == (r => HopOk(e, src, r))
      ensures At([src], 0)
    {
    }

    lemma FrontierInTurn(frontier: seq<string>, n: nat)
      requires At(frontier, n)
      ensures InTurn(frontier, n + 1)
    {
      forall i | 0 <= i < |frontier| ensures Passed(hops, n + 1, frontier[i], SetOf(frontier[..i])) {
        if n > 0 {
          FrontierPassed(hops, n, frontier, i);
        } else {
          SourceFirst();
        }
      }
    }

    /** Nobody comes before the source. */
    lemma SourceFirst()
      requires Around(0) && ok == (r => HopOk(e, src, r))
      ensures Passed(hops, 1, src, {})
    {
      forall u | 0 <= u < |hops| && hops[u].hop == 0 ensures src in Repos(hops[..u + 1]) {
        assert ok(hops[u]);
        assert Repos(hops[..u + 1])[u] == src;
      }
    }

    lemma HopBegins(n: nat)
      requires Around(n)
      ensures OnHop(n + 1)
    {
      NoneBeyond(hops, n + 1);
      if nxt != [] {
        SomethingListed(nxt);
      }
    }

    /** Hop number n + 1; gives the new frontier. */
    method Advance(frontier: seq<string>, n: nat) returns (next: seq<string>)
      requires At(frontier, n)
      modifies this
      ensures At(next, n + 1)
    {
      FreshIsShortest(e, src, n);
      FrontierInTurn(frontier, n);
      HopBegins(n);
      Spread(frontier, n + 1, Within(e, src, n), Layer(e, src, n));
      StepFromLayer(e, src, n);
      next := TakeNext(n);
    }

    /** The records of hop number n + 1 are the next frontier. */
    method TakeNext(n: nat) returns (next: seq<string>)
      requires Valid(Within(e, src, n)) && OnHop(n + 1) && ok == (r => HopOk(e, src, r))
      requires seen == Within(e, src, n + 1)
      modifies this
      ensures At(next, n + 1)
    {
      next := nxt;
      nxt := [];
    }

    /** If hop number n + 1 found nobody, everything within any number of hops has been seen. */
    lemma AllAround(n: nat, m: nat, frontier: seq<string>)
      requires At(frontier, n + 1) && frontier == [] && n < m
      ensures Around(m)
    {
      NothingNew(e, src, n, frontier);
      ClosedStays(e, src, n, m);
    }

    /** Hop after hop, until the time to live is over or a hop finds nobody. */
    method Percolate(ttl: nat)
      requires Around(0) && ok == (r => HopOk(e, src, r))
      modifies this
      ensures Around(ttl)
    {
      var frontier := [src];
      var n: nat := 0;
      AtSource();
      while n < ttl
        invariant n <= ttl && At(frontier, n)
      {
        frontier := Advance(frontier, n);
        if frontier == [] {
          AllAround(n, ttl, frontier);
          return;
        }
        n := n + 1;
      }
    }
  }

  lemma SomethingListed(s: seq<string>)
    requires s != []
    ensures SetOf(s) != {}
  {
    assert s[0] in SetOf(s);
  }

  /**
    What an emission of n hops lists: each repository within n hops once, correctly
    recorded, nearest first, and from the first of the records one step closer
    that leads to it.
   */
  ghost predicate IsEmission(e: Net, src: string, n: nat, hops: seq<Hop>) {
    && IsLog(Self in e.directions, src, Within(e, src, n), hops, r => HopOk(e, src, r))
    && NearestFirst(hops) && Traced(e, hops)
  }

  lemma NothingNew(e: Net, src: string, n: nat, nxt: seq<string>)
    requires nxt == [] && SetOf(nxt) == Within(e, src, n + 1) - Within(e, src, n)
    ensures Within(e, src, n + 1) == Within(e, src, n)
  {
    WithinGrows(e, src, n);
    NoDifference(Within(e, src, n), Within(e, src, n + 1), SetOf(nxt));
  }

  lemma NoDifference<T>(a: set<T>, b: set<T>, added: set<T>)
    requires a <= b && added == b - a && added == {}
    ensures a == b
  {
    assert b == a + (b - a);
  }

  /** Percolate from a source: every repository within `ttl` hops once, at its shortest distance, lateral first. */
  method Emit(e: Net, src: string, ttl: int) returns (hops: seq<Hop>)
    ensures src == "" ==> hops == []
    ensures src != "" ==> IsEmission(e, src, if ttl < 0 then 0 else ttl, hops)
  {
    if src == "" {
      return [];
    }
    var b := new Beacon(e, src, r => HopOk(e, src, r));
    b.Percolate(if ttl < 0 then 0 else ttl);
    return b.hops;
  }

  // -------------------------------------------------------------------- convergence

  /** Whether hop number n + 1 reaches nobody new. */
  ghost predicate Closed(e: Net, src: string, n: nat) {
    Within(e, src, n + 1) == Within(e, src, n)
  }

  ghost function Size(e: Net, src: string, n: nat): int {
    |Within(e, src, n)| - (if Self in e.directions then 0 else 1)
  }

  lemma {:induction false} SourceWithin(e: Net, src: string, n: nat)
    ensures src in Within(e, src, n)
    decreases n
  {
    if n > 0 {
      var m: nat := n - 1;
      SourceWithin(e, src, m);
      WithinStep(e, src, m);
    }
  }

  lemma EmissionSize(e: Net, src: string, n: nat, hops: seq<Hop>)
    requires IsEmission(e, src, n, hops)
    ensures |hops| == Size(e, src, n)
  {
    SetOfSize(Repos(hops));
    SourceWithin(e, src, n);
  }

  lemma SizeTellsClosed(e: Net, src: string, n: nat)
    ensures Closed(e, src, n) <==> Size(e, src, n + 1) == Size(e, src, n)
  {
    WithinGrows(e, src, n);
    if Size(e, src, n + 1) == Size(e, src, n) {
      SameSize(Within(e, src, n), Within(e, src, n + 1));
    }
  }

  /** The first closed radius the loop can report: with `self` listed, radius 0 is never compared. */
  function First(e: Net): nat {
    if Self in e.directions then 1 else 0
  }

  /** An open radius means every smaller one is open too. */
  lemma ClosedUpwards(e: Net, src: string, m: nat, n: nat)
    requires m <= n && Closed(e, src, m)
    ensures Closed(e, src, n)
  {
    ClosedStays(e, src, m, n);
    ClosedStays(e, src, m, n + 1);
  }

  /** No radius below n that the loop can report is closed. */
  ghost predicate OpenBelow(e: Net, src: string, n: nat) {
    forall m :: First(e) <= m < n ==> !Closed(e, src, m)
  }

  /** Nobody is further away than n hops. */
  ghost predicate WholeReach(e: Net, src: string, n: nat) {
    forall m: nat :: m >= n ==> Within(e, src, m) == Within(e, src, n)
  }

  lemma ClosedIsWhole(e: Net, src: string, n: nat)
    requires Closed(e, src, n)
    ensures WholeReach(e, src, n)
  {
    forall m: nat | m >= n ensures Within(e, src, m) == Within(e, src, n) {
      ClosedStays(e, src, n, m);
    }
  }

  /** The number of hops seen after m rounds: none are counted before the first. */
  ghost function SeenAfter(e: Net, src: string, m: nat): int {
    if m == 0 || src == "" then 0 else Size(e, src, m)
  }

  lemma SizeStarts(e: Net, src: string)
    ensures Size(e, src, 0) == First(e)
  {
  }

  lemma NotEmpty<T>(s: set<T>, x: T)
    requires x in s
    ensures |s| >= 1
  {
    assert s == {x} + (s - {x});
  }

  lemma SizeBound(e: Net, src: string, n: nat)
    ensures Size(e, src, n) >= First(e)
  {
    SourceWithin(e, src, n);
    NotEmpty(Within(e, src, n), src);
  }

  /**
    Comparing with the size one round earlier, or with nothing in the first round, tells whether the reach
    is closed.
   */
  lemma SameTellsClosed(e: Net, src: string, m: nat)
    requires src != ""
    ensures Size(e, src, m + 1) == SeenAfter(e, src, m) <==> m >= First(e) && Closed(e, src, m)
  {
    SizeTellsClosed(e, src, m);
    SizeBound(e, src, m + 1);
    if m == 0 {
      SizeStarts(e, src);
    }
  }

  /** What round number m + 1 finds, and whether that is as much as before. */
  ghost predicate IsRound(e: Net, src: string, m: nat, hops: seq<Hop>, same: bool) {
    if src == "" then same && hops == []
    else
      && IsEmission(e, src, m + 1, hops) && |hops| == Size(e, src, m + 1)
      && (same <==> m >= First(e) && Closed(e, src, m))
  }

  /** Round number m + 1 of the convergence loop. */
  method Round(e: Net, src: string, m: nat, total: nat) returns (hops: seq<Hop>, same: bool)
    requires total == SeenAfter(e, src, m)
    ensures IsRound(e, src, m, hops, same)
  {
    hops := Emit(e, src, m + 1);
    same := |hops| == total;
    if src != "" {
      EmissionSize(e, src, m + 1, hops);
      SameTellsClosed(e, src, m);
    }
  }

  /** What a convergence report says: a closed reach and its radius, or the reach at the ceiling. */
  ghost predicate IsReport(e: Net, src: string, maxCycles: nat, converged: bool, cycles: nat, hops: seq<Hop>)
    requires maxCycles > 0
  {
    && (converged <==> maxCycles > First(e) && Closed(e, src, maxCycles - 1))
    && IsEmission(e, src, cycles, hops)
    && OpenBelow(e, src, if converged then cycles else maxCycles)
    && (if converged then First(e) <= cycles < maxCycles && WholeReach(e, src, cycles) else cycles == maxCycles)
  }

  lemma ReportClosed(e: Net, src: string, maxCycles: nat, m: nat, hops: seq<Hop>)
    requires First(e) <= m < maxCycles && Closed(e, src, m)
    requires IsEmission(e, src, m + 1, hops) && OpenBelow(e, src, m)
    ensures IsReport(e, src, maxCycles, true, m, hops)
  {
    ClosedIsWhole(e, src, m);
    ClosedUpwards(e, src, m, maxCycles - 1);
    assert Within(e, src, m + 1) == Within(e, src, m);
  }

  lemma ReportOpen(e: Net, src: string, maxCycles: nat, hops: seq<Hop>)
    requires maxCycles > 0 && IsEmission(e, src, maxCycles, hops) && OpenBelow(e, src, maxCycles)
    ensures IsReport(e, src, maxCycles, false, maxCycles, hops)
  {
  }

  /** What is known after m rounds that went on. */
  ghost predicate Rounds(e: Net, src: string, m: nat, total: nat) {
    total == SeenAfter(e, src, m) && OpenBelow(e, src, m) && (m == 0 || src != "")
  }

  /** How the convergence loop ends. */
  ghost predicate IsOutcome(e: Net, src: string, maxCycles: int, converged: bool, cycles: nat, hops: seq<Hop>) {
    if src == "" || maxCycles <= 0 then hops == [] && cycles == 0 && (converged <==> maxCycles >= 1)
    else IsReport(e, src, maxCycles, converged, cycles, hops)
  }

  lemma GoesOn(e: Net, src: string, m: nat, size: nat)
    requires src != "" && OpenBelow(e, src, m) && !(m >= First(e) && Closed(e, src, m))
    requires size == Size(e, src, m + 1)
    ensures Rounds(e, src, m + 1, size)
  {
  }

  lemma Stops(e: Net, src: string, maxCycles: nat, m: nat, total: nat, hops: seq<Hop>)
    requires Rounds(e, src, m, total) && IsRound(e, src, m, hops, true) && m < maxCycles
    ensures IsOutcome(e, src, maxCycles, true, m, hops)
  {
    if src != "" {
      ReportClosed(e, src, maxCycles, m, hops);
    }
  }

  lemma RunsOut(e: Net, src: string, maxCycles: int, m: nat, total: nat, hops: seq<Hop>)
    requires Rounds(e, src, m, total) && m == if maxCycles < 0 then 0 else maxCycles
    requires if m == 0 then hops == [] else IsEmission(e, src, m, hops)
    ensures IsOutcome(e, src, maxCycles, false, m, hops)
  {
    if m > 0 {
      ReportOpen(e, src, maxCycles, hops);
    }
  }

  /** Percolate until a hop adds nobody: `converged` licenses "this is the whole reach". */
  method Converge(g: Hypergraph, directions: set<Direction>, src: string, maxCycles: int)
      returns (converged: bool, cycles: nat, hops: seq<Hop>)
    ensures src == "" ==> hops == [] && cycles == 0 && (converged <==> maxCycles >= 1)
    ensures src != "" && maxCycles <= 0 ==> !converged && cycles == 0 && hops == []
    ensures src != "" && maxCycles > 0 ==> IsReport(Net(g, directions, false), src, maxCycles, converged, cycles, hops)
  {
    converged, cycles, hops := RunRounds(Net(g, directions, false), src, maxCycles);
  }

  method RunRounds(e: Net, src: string, maxCycles: int) returns (converged: bool, cycles: nat, hops: seq<Hop>)
    ensures IsOutcome(e, src, maxCycles, converged, cycles, hops)
  {
    hops, converged, cycles := [], false, 0;
    var total: nat := 0;
    while cycles < maxCycles
      invariant cycles <= maxCycles || cycles == 0
      invariant Rounds(e, src, cycles, total)
      invariant cycles == 0 ==> hops == []
      invariant 0 < cycles == maxCycles ==> IsEmission(e, src, cycles, hops)
    {
      var same;
      hops, same := Round(e, src, cycles, total);
      if same {
        Stops(e, src, maxCycles, cycles, total, hops);
        converged := true;
        return;
      }
      GoesOn(e, src, cycles, |hops|);
      total, cycles := |hops|, cycles + 1;
    }
    RunsOut(e, src, maxCycles, cycles, total, hops);
  }

  // -------------------------------------------------------------------- what a report means

  lemma WholeIffClosed(e: Net, src: string, n: nat)
    ensures WholeReach(e, src, n) <==> Closed(e, src, n)
  {
    if Closed(e, src, n) {
      ClosedIsWhole(e, src, n);
    }
  }

  /** A report that did not converge is incomplete exactly when one more hop would reach somebody new. */
  lemma TruncatedIff(e: Net, src: string, maxCycles: nat, cycles: nat, hops: seq<Hop>)
    requires maxCycles > 0 && IsReport(e, src, maxCycles, false, cycles, hops)
    ensures WholeReach(e, src, cycles) <==> Closed(e, src, maxCycles)
  {
    WholeIffClosed(e, src, maxCycles);
  }

  /** The reported radius is the least closed one, except with `self` at a source that reaches nobody. */
  lemma CyclesIsLeastIff(e: Net, src: string, maxCycles: nat, cycles: nat, hops: seq<Hop>)
    requires maxCycles > 0 && IsReport(e, src, maxCycles, true, cycles, hops)
    ensures Closed(e, src, cycles)
    ensures (forall m: nat :: Closed(e, src, m) ==> cycles <= m) <==> !(Self in e.directions && Closed(e, src, 0))
  {
    WholeIffClosed(e, src, cycles);
    assert forall m :: First(e) <= m < cycles ==> !Closed(e, src, m);
    if !(Self in e.directions && Closed(e, src, 0)) {
      forall m: nat | Closed(e, src, m) ensures cycles <= m {
      }
    }
  }

  /** With `self`, a source that reaches nobody is reported at radius 1. */
  lemma IsolatedAtRadiusOne(e: Net, src: string, maxCycles: nat, converged: bool, cycles: nat, hops: seq<Hop>)
    requires Self in e.directions && Closed(e, src, 0) && maxCycles > 1
    requires IsReport(e, src, maxCycles, converged, cycles, hops)
    ensures converged && cycles == 1 && Within(e, src, 1) == {src}
  {
    ClosedUpwards(e, src, 0, maxCycles - 1);
    ClosedUpwards(e, src, 0, 1);
    assert OpenBelow(e, src, cycles);
  }

  /** One edge down from the source, one cycle allowed. */
  const SHALLOW := Net(Hypergraph(map[], map[], map[], map["s" := ["a"]], map[]), {Downstream}, false)

  lemma ShallowReach()
    ensures Within(SHALLOW, "s", 1) == {"s", "a"} && Within(SHALLOW, "s", 2) == {"s", "a"}
  {
    WithinStep(SHALLOW, "s", 0);
    WithinStep(SHALLOW, "s", 1);
    ShallowStep({"s"});
    ShallowStep({"s", "a"});
    assert Within(SHALLOW, "s", 0) == {"s"};
  }

  lemma ShallowStep(near: set<string>)
    requires "s" in near && near <= {"s", "a"}
    ensures Outward(SHALLOW, near) == {"s", "a"}
  {
    assert forall u :: Sideways(SHALLOW, u) == {};
    assert Incident(SHALLOW, "s") == {"a"};
    assert Incident(SHALLOW, "a") == {};
    assert "a" in IncidentOf(SHALLOW, near);
  }

  /** There the reach is complete, though the report says that it did not converge. */
  lemma CompleteWithoutConverging(converged: bool, cycles: nat, hops: seq<Hop>)
    requires IsReport(SHALLOW, "s", 1, converged, cycles, hops)
    ensures !converged && WholeReach(SHALLOW, "s", cycles)
  {
    ShallowReach();
    assert Within(SHALLOW, "s", 0) == {"s"};
    assert "a" in Within(SHALLOW, "s", 1) && "a" !in Within(SHALLOW, "s", 0);
    assert !Closed(SHALLOW, "s", 0);
    TruncatedIff(SHALLOW, "s", 1, cycles, hops);
  }
}

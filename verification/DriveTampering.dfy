/**
  Reads from a drive whose fragments were altered after the puts: exactly when
  the latest content of a path still comes back.
 */
module DriveTampering {
  import opened Common
  import opened Fields
  import opened Octets
  import opened HolographicIda
  import opened IdaTheorems
  import opened Combinations
  import opened MeshData
  import opened LeafPropagation
  import opened FetchTheorems
  import opened FetchExact
  import opened MeshNamespace
  import opened MeshSync
  import opened MeshRuns

  /** The content a path was last put with, and how it was last laid down. */
  ghost predicate IsCurrent(e: Mesh, puts: seq<Put>, path: string, m: Manifest)
    requires Version(puts, path) > 0
  {
    var data := LastTo(puts, path).data;
    IsManifest(m, e.h, data, LastOf(puts, data).placement, e.nodes, TIER)
  }

  /** The fragments gathered for a manifest from these slots. */
  ghost function Answered(m: Manifest, slots: map<Slot, Bytes>, reachable: Option<set<string>>): map<Point, Bytes> {
    Gathered(StoreReader(slots), m, reachable)
  }

  lemma ManifestUnique(m: Manifest, m': Manifest, h: Hash, data: Bytes, p: Placement, nodes: seq<string>)
    requires IsManifest(m, h, data, p, nodes, TIER) && IsManifest(m', h, data, p, nodes, TIER)
    ensures m == m'
  {
    var xs := DefaultPoints(m.n);
    forall x | x in m.fragmentNodes ensures x in m'.fragmentNodes && m.fragmentNodes[x] == m'.fragmentNodes[x] {
      var i :| 0 <= i < |xs| && xs[i] == x;
    }
    assert m.fragmentNodes == m'.fragmentNodes;
  }

  /** The records of the run still lead to the manifest, whatever the slots hold. */
  lemma ContentIsFetched(e: Mesh, s: State, s': State, puts: seq<Put>, path: string, reachable: Option<set<string>>,
                         m: Manifest)
    requires Inv(e, s, puts) && s'.blobs == s.blobs
    requires Version(puts, path) > 0 && IsCurrent(e, puts, path, m)
    requires SomeReplica(e, e.h(LastTo(puts, path).data), reachable)
    ensures ContentAt(e, s', e.h(LastTo(puts, path).data), reachable)
            == Fetched(e.f, e.h, m, StoreReader(s'.slots), reachable, 500)
  {
    var data := LastTo(puts, path).data;
    assert ContentOk(e, s, puts, data);
    var m0 :| ManifestOk(e, s, puts, data, m0);
    ManifestUnique(m, m0, e.h, data, LastOf(puts, data).placement, e.nodes);
    UniformManifest(s'.blobs, m, e.on(m.root), reachable);
  }

  /** A read of a name in reach returns what its content gives, with the current ref. */
  lemma ReadIsContent(e: Mesh, s: State, puts: seq<Put>, path: string, reachable: Option<set<string>>,
                      r: Result<(Bytes, NamespaceRef)>)
    requires e.InRange() && Version(puts, path) > 0 && NameOk(e, s.blobs, puts, path) && SomeReplica(e, path, reachable)
    requires IsRead(e, s, path, reachable, r)
    ensures r == ReadOf(e, s, reachable, Some(CurrentRef(e.h, puts, path)))
  {
    var ref := CurrentRef(e.h, puts, path);
    var served := Served(e, s.blobs, path, reachable);
    ServesCurrent(e, s, puts, path, reachable);
    var cur :| IsWinner(served, path, cur) && r == ReadOf(e, s, reachable, cur);
    UniformWinner(served, path, ref, cur);
  }

  lemma NameOkKept(e: Mesh, s: State, s': State, puts: seq<Put>, path: string)
    requires Inv(e, s, puts) && s'.blobs == s.blobs && path != INDEX
    ensures NameOk(e, s'.blobs, puts, path)
  {
    assert NameOk(e, s.blobs, puts, path);
  }

  /** A read of the latest content is a fetch with at most 500 attempts, whatever the slots hold. */
  lemma ReadIsFetched(e: Mesh, states: seq<State>, puts: seq<Put>, s': State, path: string,
                      reachable: Option<set<string>>, m: Manifest, r: Result<(Bytes, NamespaceRef)>)
    requires AllSettled(e, puts) && Run(e, states, puts) && Proper(puts) && NoCollisions(e.h, puts)
    requires s'.blobs == states[|puts|].blobs && path != INDEX
    requires Version(puts, path) > 0 && IsCurrent(e, puts, path, m)
    requires SomeReplica(e, path, reachable) && SomeReplica(e, e.h(LastTo(puts, path).data), reachable)
    requires IsRead(e, s', path, reachable, r)
    ensures var content := Fetched(e.f, e.h, m, StoreReader(s'.slots), reachable, 500);
      r == if content.Err? then Err(content.error) else Ok((content.value, CurrentRef(e.h, puts, path)))
  {
    RunKeepsInv(e, states, puts);
    NameOkKept(e, states[|puts|], s', puts, path);
    ReadIsContent(e, s', puts, path, reachable, r);
    ContentIsFetched(e, states[|puts|], s', puts, path, reachable, m);
  }

  /** Bytes that come back are the leaf, if no candidate collides with it. */
  lemma FetchedIsLeaf(f: Field<byte>, h: Hash, m: Manifest, get: Reader, reachable: Option<set<string>>, limit: nat,
                      leaf: Bytes)
    requires m.root == h(leaf) && NoCollisionIn(f, h, m, Gathered(get, m, reachable), leaf)
    requires Fetched(f, h, m, get, reachable, limit).Ok?
    ensures Fetched(f, h, m, get, reachable, limit) == Ok(leaf)
  {
    var avail := Gathered(get, m, reachable);
    var cs, b := All(SortedPoints(avail.Keys), m.k), Fetched(f, h, m, get, reachable, limit).value;
    FetchIsVerified(f, h, m, get, reachable, limit);
    var j := TryCameFrom(DecoderOf(f, m), h, m.root, avail, cs, limit, b);
    assert SafeAt(DecoderOf(f, m), h, leaf, avail, cs[j]);
  }

  /**
    After any run, with one replica of the name and one of the manifest in
    reach and the slots holding anything at all, a read succeeds exactly when k
    fragments answer and one of the first 500 selections holds the content
    before an uneven one is met; it then returns the last content put to the
    path with its version.
   */
  lemma TamperedReadIff(e: Mesh, states: seq<State>, puts: seq<Put>, s': State, path: string,
                        reachable: Option<set<string>>, m: Manifest, r: Result<(Bytes, NamespaceRef)>)
    requires e.Valid() && AllSettled(e, puts) && Run(e, states, puts) && Proper(puts) && NoCollisions(e.h, puts)
    requires s'.blobs == states[|puts|].blobs && path != INDEX
    requires Version(puts, path) > 0 && IsCurrent(e, puts, path, m)
    requires SomeReplica(e, path, reachable) && SomeReplica(e, e.h(LastTo(puts, path).data), reachable)
    requires NoCollisionIn(e.f, e.h, m, Answered(m, s'.slots, reachable), LastTo(puts, path).data)
    requires IsRead(e, s', path, reachable, r)
    ensures r.Ok? <==>
            && |Answered(m, s'.slots, reachable)| >= m.k
            && Findable(e.f, m, Answered(m, s'.slots, reachable), 500, LastTo(puts, path).data)
    ensures r.Ok? ==> r == Ok((LastTo(puts, path).data, CurrentRef(e.h, puts, path)))
  {
    var data := LastTo(puts, path).data;
    ReadIsFetched(e, states, puts, s', path, reachable, m, r);
    FetchSucceedsIff(e.f, e.h, m, StoreReader(s'.slots), reachable, 500, data);
    if r.Ok? {
      FetchedIsLeaf(e.f, e.h, m, StoreReader(s'.slots), reachable, 500, data);
    }
  }

  // ------------------------------------------------------- altered, not truncated

  /** Every slot of the content that is still there holds as many bytes as were written. */
  ghost predicate LengthsKept(f: Field<byte>, slots: map<Slot, Bytes>, m: Manifest, data: Bytes)
    requires m.k >= 1
  {
    forall slot :: Names(m.fragmentNodes, m.root, slot) && slot in slots ==>
      |slots[slot]| == |Fragment(f, data, m.k, slot.x)|
  }

  lemma {:induction false} AnswerCameFrom(slots: map<Slot, Bytes>, root: string, x: Point, nodes: seq<string>,
                                          reachable: Option<set<string>>) returns (node: string)
    requires FirstAnswer(StoreReader(slots), root, x, nodes, reachable).Some?
    ensures node in nodes && Slot(node, root, x) in slots
    ensures FirstAnswer(StoreReader(slots), root, x, nodes, reachable) == Some(slots[Slot(node, root, x)])
    decreases |nodes|
  {
    if Reachable(reachable, nodes[0]) && Slot(nodes[0], root, x) in slots {
      node := nodes[0];
    } else {
      node := AnswerCameFrom(slots, root, x, nodes[1..], reachable);
    }
  }

  lemma AnswersLevel(f: Field<byte>, slots: map<Slot, Bytes>, m: Manifest, data: Bytes, reachable: Option<set<string>>,
                     x: Point)
    requires m.k >= 1 && LengthsKept(f, slots, m, data) && x in Answered(m, slots, reachable)
    ensures |Answered(m, slots, reachable)[x]| == |Fragment(f, data, m.k, 1)|
  {
    var node := AnswerCameFrom(slots, m.root, x, m.fragmentNodes[x], reachable);
    assert Names(m.fragmentNodes, m.root, Slot(node, m.root, x));
    ValuesLength(f, Pad(data, m.k), m.k, ByteOf(x), ByteOf(1));
  }

  /**
    After any run, let any fragments of the latest content be altered to other
    bytes of their length, or removed.  If k of those gathered are still genuine
    and the selections from them are at most 500, a read returns that content
    with its version.
   */
  lemma RoutesAroundTampering(e: Mesh, states: seq<State>, puts: seq<Put>, s': State, path: string,
                              reachable: Option<set<string>>, m: Manifest, honest: set<Point>,
                              r: Result<(Bytes, NamespaceRef)>)
    requires e.Valid() && AllSettled(e, puts) && Run(e, states, puts) && Proper(puts) && NoCollisions(e.h, puts)
    requires s'.blobs == states[|puts|].blobs && path != INDEX
    requires Version(puts, path) > 0 && IsCurrent(e, puts, path, m)
    requires SomeReplica(e, path, reachable) && SomeReplica(e, e.h(LastTo(puts, path).data), reachable)
    requires NoCollisionIn(e.f, e.h, m, Answered(m, s'.slots, reachable), LastTo(puts, path).data)
    requires LengthsKept(e.f, s'.slots, m, LastTo(puts, path).data)
    requires |honest| >= m.k
    requires forall x :: x in honest ==>
      Genuine(e.f, LastTo(puts, path).data, m.k, Answered(m, s'.slots, reachable), x)
    requires Choose(|Answered(m, s'.slots, reachable)|, m.k) <= 500
    requires IsRead(e, s', path, reachable, r)
    ensures r == Ok((LastTo(puts, path).data, CurrentRef(e.h, puts, path)))
  {
    var data := LastTo(puts, path).data;
    ReadIsFetched(e, states, puts, s', path, reachable, m, r);
    forall x | x in Answered(m, s'.slots, reachable)
      ensures |Answered(m, s'.slots, reachable)[x]| == |Fragment(e.f, data, m.k, 1)|
    {
      AnswersLevel(e.f, s'.slots, m, data, reachable, x);
    }
    FetchRoutesAround(e.f, e.h, m, StoreReader(s'.slots), reachable, 500, data, honest,
                      |Fragment(e.f, data, m.k, 1)|);
  }
}

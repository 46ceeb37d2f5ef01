/** Every run of completed puts on a fixed mesh keeps the Drive readable by name. */
module MeshRuns {
  import opened Common
  import opened GfTables
  import FragmentPlacement
  import opened HolographicIda
  import opened MeshData
  import opened LeafPropagation
  import opened FetchTheorems
  import opened MeshNamespace
  import opened MeshSync

  // ---------------------------------------------------------------- histories

  /** How many puts went to a path. */
  function Version(puts: seq<Put>, path: string): nat {
    if puts == [] then 0
    else Version(puts[..|puts| - 1], path) + (if puts[|puts| - 1].path == path then 1 else 0)
  }

  ghost predicate WasPut(puts: seq<Put>, data: Bytes) {
    exists i :: 0 <= i < |puts| && puts[i].data == data
  }

  /** The last put to a path. */
  function LastTo(puts: seq<Put>, path: string): (put: Put)
    requires Version(puts, path) > 0
    ensures put.path == path && WasPut(puts, put.data)
  {
    var last := puts[|puts| - 1];
    if last.path == path then last else LastTo(puts[..|puts| - 1], path)
  }

  /** The last put of these bytes, under any path. */
  ghost function LastOf(puts: seq<Put>, data: Bytes): (put: Put)
    requires WasPut(puts, data)
    ensures put.data == data
  {
    var last := puts[|puts| - 1];
    if last.data == data then last else LastOf(puts[..|puts| - 1], data)
  }

  function Paths(puts: seq<Put>): set<string> {
    if puts == [] then {} else Paths(puts[..|puts| - 1]) + {puts[|puts| - 1].path}
  }

  /** The bytes put so far have different roots. */
  ghost predicate NoCollisions(h: Hash, puts: seq<Put>) {
    forall i, j :: 0 <= i < |puts| && 0 <= j < |puts| && h(puts[i].data) == h(puts[j].data) ==>
      puts[i].data == puts[j].data
  }

  /** No file is stored under the index's own name. */
  predicate Proper(puts: seq<Put>) {
    forall i :: 0 <= i < |puts| ==> puts[i].path != INDEX
  }

  /** The keys of the records of these puts. */
  ghost function AllKeys(h: Hash, puts: seq<Put>): set<string> {
    {INDEX} + set put, key | put in puts && key in KeysOf(h, put) :: key
  }

  /** The mesh accepts its replica count and the replicas of every record of these puts are settled. */
  ghost predicate AllSettled(e: Mesh, puts: seq<Put>) {
    e.InRange() && forall key :: key in AllKeys(e.h, puts) ==> e.Agreed(key)
  }

  lemma SettledAmong(e: Mesh, puts: seq<Put>, put: Put)
    requires AllSettled(e, puts) && put in puts
    ensures Settled(e, put)
  {
    forall key | key in KeysOf(e.h, put) ensures e.Agreed(key) {
      assert key in AllKeys(e.h, puts);
    }
  }

  /** A run: from an empty store, one completed put after the other. */
  ghost predicate Run(e: Mesh, states: seq<State>, puts: seq<Put>) {
    && |states| == |puts| + 1
    && states[0] == State(map[], map[])
    && forall i :: 0 <= i < |puts| ==> Completes(e, states[i], states[i + 1], puts[i])
  }

  ghost predicate Completes(e: Mesh, s: State, s': State, put: Put) {
    exists m, ref :: PutStep(e, s, s', put, m, ref)
  }

  // ---------------------------------------------------------------- the invariant

  /** All replicas of a key hold the same blob, or none holds any. */
  ghost predicate Holds(e: Mesh, blobs: map<Address, Blob>, on: string, key: BlobKey, blob: Option<Blob>) {
    forall node :: node in e.on(on) ==>
      if blob.Some? then Address(node, key) in blobs && blobs[Address(node, key)] == blob.value
      else Address(node, key) !in blobs
  }

  /** The ref of a path after these puts. */
  function CurrentRef(h: Hash, puts: seq<Put>, path: string): NamespaceRef
    requires Version(puts, path) > 0
  {
    var put := LastTo(puts, path);
    NamespaceRef(path, h(put.data), Version(puts, path), put.now, put.writer)
  }

  ghost predicate NameOk(e: Mesh, blobs: map<Address, Blob>, puts: seq<Put>, path: string) {
    Holds(e, blobs, path, NameKey(path),
          if Version(puts, path) == 0 then None else Some(RefBlob(CurrentRef(e.h, puts, path))))
  }

  ghost predicate ContentOk(e: Mesh, s: State, puts: seq<Put>, data: Bytes)
    requires WasPut(puts, data)
  {
    exists m :: ManifestOk(e, s, puts, data, m)
  }

  ghost predicate ManifestOk(e: Mesh, s: State, puts: seq<Put>, data: Bytes, m: Manifest)
    requires WasPut(puts, data)
  {
    && IsManifest(m, e.h, data, LastOf(puts, data).placement, e.nodes, TIER)
    && Stored(e.f, s.slots, m, data)
    && Holds(e, s.blobs, m.root, ManifestKey(m.root), Some(ManifestBlob(m)))
  }

  ghost predicate IndexOk(e: Mesh, blobs: map<Address, Blob>, puts: seq<Put>) {
    Holds(e, blobs, INDEX, NameKey(INDEX), if puts == [] then None else Some(IndexBlob(Paths(puts))))
  }

  ghost predicate Inv(e: Mesh, s: State, puts: seq<Put>) {
    && (forall path :: path != INDEX ==> NameOk(e, s.blobs, puts, path))
    && (forall data :: WasPut(puts, data) ==> ContentOk(e, s, puts, data))
    && IndexOk(e, s.blobs, puts)
  }

  // ------------------------------------------------------------ uniform replicas

  /** Replicas that agree answer with one blob each, or not at all. */
  lemma {:induction false} UniformAnswers(blobs: map<Address, Blob>, key: BlobKey, targets: seq<string>,
                                          reachable: Option<set<string>>, blob: Option<Blob>)
    requires forall node :: node in targets ==>
      if blob.Some? then Address(node, key) in blobs && blobs[Address(node, key)] == blob.value
      else Address(node, key) !in blobs
    ensures var bs := Answers(BlobsReader(blobs), key, targets, reachable);
            && (blob.None? ==> bs == [])
            && (forall i :: 0 <= i < |bs| ==> blob.Some? && bs[i] == blob.value)
            && (blob.Some? && (exists node :: node in targets && Reachable(reachable, node)) ==> bs != [])
    decreases |targets|
  {
    if targets != [] {
      assert targets[0] in targets;
      UniformAnswers(blobs, key, targets[1..], reachable, blob);
      if blob.Some? && !Reachable(reachable, targets[0])
         && (exists node :: node in targets && Reachable(reachable, node)) {
        var node :| node in targets && Reachable(reachable, node);
        assert node in targets[1..];
      }
    }
  }

  lemma {:induction false} UniformPaths(bs: seq<Blob>, paths: set<string>)
    requires forall i :: 0 <= i < |bs| ==> bs[i] == IndexBlob(paths)
    ensures AllPaths(bs) == if bs == [] then {} else paths
    decreases |bs|
  {
    if bs != [] {
      UniformPaths(bs[1..], paths);
    }
  }

  lemma UniformWinner(bs: seq<Blob>, path: string, ref: NamespaceRef, cur: Option<NamespaceRef>)
    requires bs != [] && ref.path == path && forall i :: 0 <= i < |bs| ==> bs[i] == RefBlob(ref)
    requires IsWinner(bs, path, cur)
    ensures cur == Some(ref)
  {
    assert IsRefFor(bs[0], path);
  }

  /** Some replica of a key is in reach. */
  ghost predicate SomeReplica(e: Mesh, key: string, reachable: Option<set<string>>) {
    exists node :: node in e.on(key) && Reachable(reachable, node)
  }

  lemma FirstReachable(e: Mesh, key: string)
    requires e.InRange() && e.Agreed(key)
    ensures SomeReplica(e, key, None)
  {
    ReplicasExist(e.w, key, e.nodes, e.replicas);
    assert e.on(key)[0] in e.on(key);
  }

  // ------------------------------------------------------------------- each stage

  lemma PublishedHolds(e: Mesh, blobs: map<Address, Blob>, on: string, key: BlobKey, blob: Blob)
    ensures Holds(e, Published(blobs, e.on(on), key, blob), on, key, Some(blob))
  {
    forall node | node in e.on(on)
      ensures var after := Published(blobs, e.on(on), key, blob);
              Address(node, key) in after && after[Address(node, key)] == blob
    {
      PublishedAt(blobs, e.on(on), key, blob, Address(node, key));
    }
  }

  /** Publishing under one key leaves every other key alone. */
  lemma PublishedKeeps(e: Mesh, blobs: map<Address, Blob>, on: string, key: BlobKey, blob: Blob,
                       on': string, key': BlobKey, held: Option<Blob>)
    requires key != key' && Holds(e, blobs, on', key', held)
    ensures Holds(e, Published(blobs, e.on(on), key, blob), on', key', held)
  {
    forall node | node in e.on(on')
      ensures var after := Published(blobs, e.on(on), key, blob);
              if held.Some? then Address(node, key') in after && after[Address(node, key')] == held.value
              else Address(node, key') !in after
    {
      PublishedAt(blobs, e.on(on), key, blob, Address(node, key'));
    }
  }

  /** A put bumps the ref to one more than the number of puts before it. */
  lemma BumpedVersion(e: Mesh, blobs: map<Address, Blob>, puts: seq<Put>, path: string, cur: Option<NamespaceRef>)
    requires e.InRange() && e.Agreed(path) && NameOk(e, blobs, puts, path)
    requires IsWinner(Served(e, blobs, path, None), path, cur)
    ensures NextVersion(cur) == Version(puts, path) + 1
  {
    var bs := Served(e, blobs, path, None);
    FirstReachable(e, path);
    if Version(puts, path) == 0 {
      UniformAnswers(blobs, NameKey(path), e.on(path), None, None);
      assert bs == [];
    } else {
      var ref := CurrentRef(e.h, puts, path);
      UniformAnswers(blobs, NameKey(path), e.on(path), None, Some(RefBlob(ref)));
      UniformWinner(bs, path, ref, cur);
    }
  }

  /** With one replica in reach, the index lists exactly the paths put so far. */
  lemma IndexServes(e: Mesh, blobs: map<Address, Blob>, puts: seq<Put>, reachable: Option<set<string>>)
    requires IndexOk(e, blobs, puts) && SomeReplica(e, INDEX, reachable)
    ensures AllPaths(Served(e, blobs, INDEX, reachable)) == Paths(puts)
  {
    if puts == [] {
      UniformAnswers(blobs, NameKey(INDEX), e.on(INDEX), reachable, None);
    } else {
      UniformAnswers(blobs, NameKey(INDEX), e.on(INDEX), reachable, Some(IndexBlob(Paths(puts))));
      UniformPaths(Served(e, blobs, INDEX, reachable), Paths(puts));
    }
  }

  lemma PathsAppend(puts: seq<Put>, put: Put)
    ensures Paths(puts + [put]) == Paths(puts) + {put.path}
  {
    assert (puts + [put])[..|puts|] == puts;
  }

  lemma GrownIndex(e: Mesh, blobs: map<Address, Blob>, puts: seq<Put>, put: Put)
    requires e.InRange() && e.Agreed(INDEX) && IndexOk(e, blobs, puts)
    ensures IndexOk(e, Indexed(e, blobs, put.path), puts + [put])
  {
    FirstReachable(e, INDEX);
    IndexServes(e, blobs, puts, None);
    PathsAppend(puts, put);
    PublishedHolds(e, blobs, INDEX, NameKey(INDEX), IndexBlob(Paths(puts) + {put.path}));
  }

  // ------------------------------------------------------------------ preservation

  lemma AppendFacts(puts: seq<Put>, put: Put, path: string, data: Bytes)
    ensures Version(puts + [put], path) == Version(puts, path) + (if put.path == path then 1 else 0)
    ensures put.path == path ==> LastTo(puts + [put], path) == put
    ensures put.path != path && Version(puts, path) > 0 ==> LastTo(puts + [put], path) == LastTo(puts, path)
    ensures WasPut(puts + [put], data) <==> data == put.data || WasPut(puts, data)
    ensures data == put.data ==> WasPut(puts + [put], data) && LastOf(puts + [put], data) == put
    ensures data != put.data && WasPut(puts, data) ==> LastOf(puts + [put], data) == LastOf(puts, data)
  {
    var all := puts + [put];
    assert all[..|puts|] == puts && all[|puts|] == put;
    if WasPut(puts, data) {
      var i :| 0 <= i < |puts| && puts[i].data == data;
      assert all[i].data == data;
    }
    if WasPut(all, data) && data != put.data {
      var i :| 0 <= i < |all| && all[i].data == data;
      assert puts[i].data == data;
    }
  }

  lemma NamesKept(e: Mesh, s: State, s': State, puts: seq<Put>, put: Put, m: Manifest, ref: NamespaceRef, path: string)
    requires e.InRange() && e.Agreed(put.path) && PutStep(e, s, s', put, m, ref) && NameOk(e, s.blobs, puts, path)
    requires path != INDEX && put.path != INDEX
    ensures NameOk(e, s'.blobs, puts + [put], path)
  {
    AppendFacts(puts, put, path, put.data);
    var b1 := WithManifest(e, s.blobs, m);
    var held := if Version(puts, path) == 0 then None else Some(RefBlob(CurrentRef(e.h, puts, path)));
    PublishedKeeps(e, s.blobs, m.root, ManifestKey(m.root), ManifestBlob(m), path, NameKey(path), held);
    assert NameOk(e, b1, puts, path);
    var b2 := WithRef(e, b1, ref);
    var held' := if path == put.path then Some(RefBlob(ref)) else held;
    if path == put.path {
      var cur :| IsWinner(Served(e, b1, put.path, None), put.path, cur)
                 && ref == NamespaceRef(put.path, m.root, NextVersion(cur), put.now, put.writer);
      BumpedVersion(e, b1, puts, path, cur);
      PublishedHolds(e, b1, path, NameKey(path), RefBlob(ref));
      assert ref == CurrentRef(e.h, puts + [put], path);
    } else {
      PublishedKeeps(e, b1, ref.path, NameKey(ref.path), RefBlob(ref), path, NameKey(path), held);
    }
    IndexedKeeps(e, b2, put.path, path, NameKey(path), held');
  }

  lemma IndexedKeeps(e: Mesh, blobs: map<Address, Blob>, path: string, on: string, key: BlobKey, held: Option<Blob>)
    requires key != NameKey(INDEX) && Holds(e, blobs, on, key, held)
    ensures Holds(e, Indexed(e, blobs, path), on, key, held)
  {
    PublishedKeeps(e, blobs, INDEX, NameKey(INDEX), IndexBlob(AllPaths(Served(e, blobs, INDEX, None)) + {path}),
                   on, key, held);
  }

  /** The ref and index stages leave every manifest alone. */
  lemma NamingKeepsManifests(e: Mesh, blobs: map<Address, Blob>, put: Put, ref: NamespaceRef, root: string,
                             held: Option<Blob>)
    requires Holds(e, blobs, root, ManifestKey(root), held)
    ensures Holds(e, Indexed(e, WithRef(e, blobs, ref), put.path), root, ManifestKey(root), held)
  {
    PublishedKeeps(e, blobs, ref.path, NameKey(ref.path), RefBlob(ref), root, ManifestKey(root), held);
    IndexedKeeps(e, WithRef(e, blobs, ref), put.path, root, ManifestKey(root), held);
  }

  lemma NewContent(e: Mesh, s: State, s': State, puts: seq<Put>, put: Put, m: Manifest, ref: NamespaceRef)
    requires PutStep(e, s, s', put, m, ref)
    ensures WasPut(puts + [put], put.data) && ManifestOk(e, s', puts + [put], put.data, m)
  {
    AppendFacts(puts, put, put.path, put.data);
    WrittenIsStored(e.f, e.h, s.slots, s'.slots, m, put.data, put.placement, e.nodes, TIER);
    PublishedHolds(e, s.blobs, m.root, ManifestKey(m.root), ManifestBlob(m));
    NamingKeepsManifests(e, WithManifest(e, s.blobs, m), put, ref, m.root, Some(ManifestBlob(m)));
  }

  lemma OtherContent(e: Mesh, s: State, s': State, puts: seq<Put>, put: Put, m: Manifest, ref: NamespaceRef,
                     data: Bytes, m0: Manifest)
    requires PutStep(e, s, s', put, m, ref)
    requires data != put.data && e.h(data) != e.h(put.data) && WasPut(puts, data) && ManifestOk(e, s, puts, data, m0)
    ensures WasPut(puts + [put], data) && ManifestOk(e, s', puts + [put], data, m0)
  {
    AppendFacts(puts, put, put.path, data);
    StoredKept(e, s, s', put, m, data, m0);
    PublishedKeeps(e, s.blobs, m.root, ManifestKey(m.root), ManifestBlob(m), m0.root, ManifestKey(m0.root),
                   Some(ManifestBlob(m0)));
    NamingKeepsManifests(e, WithManifest(e, s.blobs, m), put, ref, m0.root, Some(ManifestBlob(m0)));
  }

  /** Fragments of another root are untouched. */
  lemma StoredKept(e: Mesh, s: State, s': State, put: Put, m: Manifest, data: Bytes, m0: Manifest)
    requires Laid(e, s.slots, s'.slots, put, m)
    requires m0.root != m.root && Stored(e.f, s.slots, m0, data)
    ensures Stored(e.f, s'.slots, m0, data)
  {
    forall slot | Names(m0.fragmentNodes, m0.root, slot)
      ensures slot in s'.slots && s'.slots[slot] == Fragment(e.f, data, m0.k, slot.x)
    {
      assert !Names(m.fragmentNodes, m.root, slot);
    }
  }

  lemma IndexKept(e: Mesh, s: State, s': State, puts: seq<Put>, put: Put, m: Manifest, ref: NamespaceRef)
    requires e.InRange() && e.Agreed(INDEX) && PutStep(e, s, s', put, m, ref) && IndexOk(e, s.blobs, puts)
    requires put.path != INDEX
    ensures IndexOk(e, s'.blobs, puts + [put])
  {
    var held := if puts == [] then None else Some(IndexBlob(Paths(puts)));
    var b1 := WithManifest(e, s.blobs, m);
    PublishedKeeps(e, s.blobs, m.root, ManifestKey(m.root), ManifestBlob(m), INDEX, NameKey(INDEX), held);
    PublishedKeeps(e, b1, ref.path, NameKey(ref.path), RefBlob(ref), INDEX, NameKey(INDEX), held);
    GrownIndex(e, WithRef(e, b1, ref), puts, put);
  }

  lemma StepKeepsInv(e: Mesh, s: State, s': State, puts: seq<Put>, put: Put)
    requires e.InRange() && Settled(e, put) && Inv(e, s, puts) && Completes(e, s, s', put)
    requires Proper(puts + [put]) && NoCollisions(e.h, puts + [put])
    ensures Inv(e, s', puts + [put])
  {
    var m, ref :| PutStep(e, s, s', put, m, ref);
    var all := puts + [put];
    assert all[|puts|] == put;
    assert put.path in KeysOf(e.h, put) && INDEX in KeysOf(e.h, put);
    forall path | path != INDEX ensures NameOk(e, s'.blobs, all, path) {
      NamesKept(e, s, s', puts, put, m, ref, path);
    }
    forall data | WasPut(all, data) ensures ContentOk(e, s', all, data) {
      AppendFacts(puts, put, put.path, data);
      if data == put.data {
        NewContent(e, s, s', puts, put, m, ref);
      } else {
        var i :| 0 <= i < |puts| && puts[i].data == data;
        assert all[i].data == data;
        assert ContentOk(e, s, puts, data);
        var m0 :| ManifestOk(e, s, puts, data, m0);
        OtherContent(e, s, s', puts, put, m, ref, data, m0);
      }
    }
    IndexKept(e, s, s', puts, put, m, ref);
  }

  /** The invariant holds at every state of a run. */
  lemma {:induction false} InvAt(e: Mesh, states: seq<State>, puts: seq<Put>, i: nat)
    requires AllSettled(e, puts) && Run(e, states, puts) && Proper(puts) && NoCollisions(e.h, puts) && i <= |puts|
    ensures Inv(e, states[i], puts[..i])
    decreases i
  {
    if i == 0 {
      EmptyInv(e);
    } else {
      InvAt(e, states, puts, i - 1);
      InvNext(e, states, puts, i);
    }
  }

  lemma InvNext(e: Mesh, states: seq<State>, puts: seq<Put>, i: nat)
    requires AllSettled(e, puts) && Run(e, states, puts) && Proper(puts) && NoCollisions(e.h, puts) && 0 < i <= |puts|
    requires Inv(e, states[i - 1], puts[..i - 1])
    ensures Inv(e, states[i], puts[..i])
  {
    assert Completes(e, states[i - 1], states[i - 1 + 1], puts[i - 1]);
    PrefixFacts(e.h, puts, i);
    SettledAmong(e, puts, puts[i - 1]);
    StepKeepsInv(e, states[i - 1], states[i], puts[..i - 1], puts[i - 1]);
  }

  lemma PrefixFacts(h: Hash, puts: seq<Put>, i: nat)
    requires 0 < i <= |puts| && Proper(puts) && NoCollisions(h, puts)
    ensures puts[..i] == puts[..i - 1] + [puts[i - 1]]
    ensures Proper(puts[..i]) && NoCollisions(h, puts[..i])
  {
  }

  lemma RunKeepsInv(e: Mesh, states: seq<State>, puts: seq<Put>)
    requires AllSettled(e, puts) && Run(e, states, puts) && Proper(puts) && NoCollisions(e.h, puts)
    ensures Inv(e, states[|puts|], puts)
  {
    assert puts[..|puts|] == puts;
    InvAt(e, states, puts, |puts|);
  }

  lemma EmptyInv(e: Mesh)
    ensures Inv(e, State(map[], map[]), [])
  {
  }

  // --------------------------------------------------------------------- theorems

  lemma {:induction false} UniformManifest(blobs: map<Address, Blob>, m: Manifest, targets: seq<string>,
                                           reachable: Option<set<string>>)
    requires forall node :: node in targets ==>
      Address(node, ManifestKey(m.root)) in blobs && blobs[Address(node, ManifestKey(m.root))] == ManifestBlob(m)
    requires exists node :: node in targets && Reachable(reachable, node)
    ensures ManifestAt(BlobsReader(blobs), m.root, targets, reachable) == Ok(m)
    decreases |targets|
  {
    assert targets[0] in targets;
    if !Reachable(reachable, targets[0]) {
      var node :| node in targets && Reachable(reachable, node);
      assert node in targets[1..];
      UniformManifest(blobs, m, targets[1..], reachable);
    }
  }

  /** Enough fragments of the manifest of this content are in reach. */
  ghost predicate EnoughFragments(e: Mesh, p: Placement, reachable: Option<set<string>>, inReach: set<Point>) {
    && |inReach| >= p.k
    && forall x :: x in inReach ==> 1 <= x <= p.k + p.m && CopyInReach(e, p, reachable, x)
  }

  /** Some copy of fragment x is on a reachable node. */
  ghost predicate CopyInReach(e: Mesh, p: Placement, reachable: Option<set<string>>, x: Point) {
    && Fits(p, e.nodes) && 1 <= x <= p.k + p.m
    && exists node :: node in FragmentPlacement.CopiesOf(e.nodes, p.k + p.m, p.shardReplicas, x - 1)
                      && Reachable(reachable, node)
  }

  lemma ContentReadable(e: Mesh, s: State, puts: seq<Put>, data: Bytes, reachable: Option<set<string>>,
                        inReach: set<Point>)
    requires e.Valid() && WasPut(puts, data) && ContentOk(e, s, puts, data)
    requires SomeReplica(e, e.h(data), reachable)
    requires EnoughFragments(e, LastOf(puts, data).placement, reachable, inReach)
    ensures ContentAt(e, s, e.h(data), reachable) == Ok(data)
  {
    var m :| ManifestOk(e, s, puts, data, m);
    UniformManifest(s.blobs, m, e.on(m.root), reachable);
    forall x | x in inReach ensures HasReachableCopy(m, reachable, x) {
      assert CopyInReach(e, LastOf(puts, data).placement, reachable, x);
      assert DefaultPoints(m.n)[x - 1] == x;
    }
    FetchFromStore(e.f, e.h, s.slots, m, data, reachable, MAX_ATTEMPTS, inReach);
  }

  /**
    After any run of completed puts, a read by name returns the last bytes put
    to that path, with a ref whose version is the number of puts to it, as
    long as one replica of the name, one of the manifest and k fragments are in
    reach.  The content may have been put before under other names or at other
    placements.
   */
  lemma ReadsLatest(e: Mesh, states: seq<State>, puts: seq<Put>, path: string, reachable: Option<set<string>>,
                    inReach: set<Point>, r: Result<(Bytes, NamespaceRef)>)
    requires e.Valid() && AllSettled(e, puts) && Run(e, states, puts) && Proper(puts) && NoCollisions(e.h, puts)
    requires path != INDEX && Version(puts, path) > 0
    requires SomeReplica(e, path, reachable) && SomeReplica(e, e.h(LastTo(puts, path).data), reachable)
    requires EnoughFragments(e, LastOf(puts, LastTo(puts, path).data).placement, reachable, inReach)
    requires IsRead(e, states[|puts|], path, reachable, r)
    ensures r == Ok((LastTo(puts, path).data, CurrentRef(e.h, puts, path)))
    ensures r.value.1.version == Version(puts, path)
  {
    RunKeepsInv(e, states, puts);
    var s, data := states[|puts|], LastTo(puts, path).data;
    assert NameOk(e, s.blobs, puts, path);
    assert ContentOk(e, s, puts, data);
    ContentReadable(e, s, puts, data, reachable, inReach);
    ReadsCurrent(e, s, puts, path, reachable, r);
  }

  /** A name with a replica in reach serves its current ref and nothing else. */
  lemma ServesCurrent(e: Mesh, s: State, puts: seq<Put>, path: string, reachable: Option<set<string>>)
    requires Version(puts, path) > 0 && NameOk(e, s.blobs, puts, path) && SomeReplica(e, path, reachable)
    ensures var served := Served(e, s.blobs, path, reachable);
      && served != [] && !ServesList(served)
      && forall i :: 0 <= i < |served| ==> served[i] == RefBlob(CurrentRef(e.h, puts, path))
  {
    UniformAnswers(s.blobs, NameKey(path), e.on(path), reachable, Some(RefBlob(CurrentRef(e.h, puts, path))));
  }

  lemma ReadsCurrent(e: Mesh, s: State, puts: seq<Put>, path: string, reachable: Option<set<string>>,
                     r: Result<(Bytes, NamespaceRef)>)
    requires e.InRange() && Version(puts, path) > 0 && NameOk(e, s.blobs, puts, path) && SomeReplica(e, path, reachable)
    requires ContentAt(e, s, e.h(LastTo(puts, path).data), reachable) == Ok(LastTo(puts, path).data)
    requires IsRead(e, s, path, reachable, r)
    ensures r == Ok((LastTo(puts, path).data, CurrentRef(e.h, puts, path)))
  {
    var ref := CurrentRef(e.h, puts, path);
    var served := Served(e, s.blobs, path, reachable);
    ServesCurrent(e, s, puts, path, reachable);
    var cur :| IsWinner(served, path, cur) && r == ReadOf(e, s, reachable, cur);
    UniformWinner(served, path, ref, cur);
  }

  /** Whatever the store holds, a read that succeeds returns bytes whose hash is the root of the returned ref. */
  lemma ReadIsVerified(e: Mesh, s: State, path: string, reachable: Option<set<string>>, b: Bytes, ref: NamespaceRef)
    requires IsRead(e, s, path, reachable, Ok((b, ref)))
    ensures e.h(b) == ref.root && ref.path == path
  {
    var served := Served(e, s.blobs, path, reachable);
    var cur :| IsWinner(served, path, cur) && Ok((b, ref)) == ReadOf(e, s, reachable, cur);
    ManifestHasRoot(BlobsReader(s.blobs), ref.root, e.on(ref.root), reachable);
    var m := ManifestAt(BlobsReader(s.blobs), ref.root, e.on(ref.root), reachable).value;
    FetchIsVerified(e.f, e.h, m, StoreReader(s.slots), reachable, MAX_ATTEMPTS);
  }

  // --------------------------------------------------------------------- seizure

  /** All nodes but the seized ones are in reach. */
  ghost predicate AllButSeized(e: Mesh, seized: set<string>, reach: set<string>) {
    forall node :: node in e.nodes && node !in seized ==> node in reach
  }

  /** Fewer seized nodes than replicas leave a replica of every key in reach. */
  lemma ReplicaSurvives(e: Mesh, key: string, seized: set<string>, reach: set<string>)
    requires e.InRange() && e.Agreed(key) && NoRepeats(e.nodes)
    requires AllButSeized(e, seized, reach) && |seized| < e.replicas
    ensures SomeReplica(e, key, Some(reach))
  {
    ReplicasDistinct(e.w, key, e.nodes, e.replicas);
    SetOfSize(e.on(key));
    LargerNotInside(SetOf(e.on(key)), seized);
    var node := Outside(SetOf(e.on(key)), seized);
    assert node in SetOf(e.nodes);
    assert node in e.on(key) && Reachable(Some(reach), node);
  }

  lemma RecordsSurvive(e: Mesh, puts: seq<Put>, put: Put, seized: set<string>, reach: set<string>)
    requires AllSettled(e, puts) && put in puts && NoRepeats(e.nodes)
    requires AllButSeized(e, seized, reach) && |seized| < e.replicas
    ensures SomeReplica(e, put.path, Some(reach)) && SomeReplica(e, e.h(put.data), Some(reach))
  {
    SettledAmong(e, puts, put);
    assert put.path in KeysOf(e.h, put) && e.h(put.data) in KeysOf(e.h, put);
    ReplicaSurvives(e, put.path, seized, reach);
    ReplicaSurvives(e, e.h(put.data), seized, reach);
  }

  lemma LargerNotInside<T>(a: set<T>, b: set<T>)
    requires |a| > |b|
    ensures !(a <= b)
  {
    if a <= b {
      SubsetSize(a, b);
    }
  }

  /** Fewer than (m + 1) R nodes are seized. */
  predicate Spares(p: Placement, seized: set<string>) {
    |seized| < (p.m + 1) * p.shardReplicas
  }

  /** Fewer than (m + 1) R seized nodes leave k fragments of the content in reach. */
  lemma ContentSurvives(e: Mesh, s: State, puts: seq<Put>, data: Bytes, seized: set<string>, reach: set<string>)
    requires e.Valid() && NoRepeats(e.nodes) && AllButSeized(e, seized, reach)
    requires WasPut(puts, data) && ContentOk(e, s, puts, data) && SomeReplica(e, e.h(data), Some(reach))
    requires Spares(LastOf(puts, data).placement, seized)
    ensures ContentAt(e, s, e.h(data), Some(reach)) == Ok(data)
  {
    var m :| ManifestOk(e, s, puts, data, m);
    UniformManifest(s.blobs, m, e.on(m.root), Some(reach));
    SurvivesSeizure(e.f, e.h, s.slots, m, data, LastOf(puts, data).placement, e.nodes, TIER, seized, reach,
                    MAX_ATTEMPTS);
  }

  /**
    After any run, on distinct nodes, a seizure of fewer nodes than a name has
    replicas and than (m + 1) R leaves a put path readable at its latest
    version, for the m and R its content was last put with.
   */
  lemma SeizureLeavesReadable(e: Mesh, states: seq<State>, puts: seq<Put>, path: string, seized: set<string>,
                              reach: set<string>, r: Result<(Bytes, NamespaceRef)>)
    requires e.Valid() && AllSettled(e, puts) && Run(e, states, puts) && Proper(puts) && NoCollisions(e.h, puts)
    requires NoRepeats(e.nodes) && AllButSeized(e, seized, reach)
    requires path != INDEX && Version(puts, path) > 0 && |seized| < e.replicas
    requires Spares(LastOf(puts, LastTo(puts, path).data).placement, seized)
    requires IsRead(e, states[|puts|], path, Some(reach), r)
    ensures r == Ok((LastTo(puts, path).data, CurrentRef(e.h, puts, path)))
  {
    RunKeepsInv(e, states, puts);
    LastWasPut(puts, path);
    RecordsSurvive(e, puts, LastTo(puts, path), seized, reach);
    LatestSurvives(e, states[|puts|], puts, path, seized, reach);
    ReadsCurrent(e, states[|puts|], puts, path, Some(reach), r);
  }

  lemma LatestSurvives(e: Mesh, s: State, puts: seq<Put>, path: string, seized: set<string>, reach: set<string>)
    requires e.Valid() && Inv(e, s, puts) && NoRepeats(e.nodes) && AllButSeized(e, seized, reach)
    requires path != INDEX && Version(puts, path) > 0 && SomeReplica(e, e.h(LastTo(puts, path).data), Some(reach))
    requires Spares(LastOf(puts, LastTo(puts, path).data).placement, seized)
    ensures NameOk(e, s.blobs, puts, path)
    ensures ContentAt(e, s, e.h(LastTo(puts, path).data), Some(reach)) == Ok(LastTo(puts, path).data)
  {
    assert ContentOk(e, s, puts, LastTo(puts, path).data);
    ContentSurvives(e, s, puts, LastTo(puts, path).data, seized, reach);
  }

  lemma {:induction false} LastWasPut(puts: seq<Put>, path: string)
    requires Version(puts, path) > 0
    ensures LastTo(puts, path) in puts
    decreases |puts|
  {
    var n := |puts| - 1;
    if puts[n].path != path {
      LastWasPut(puts[..n], path);
    }
  }

  /** Such a seizure leaves the whole listing. */
  lemma SeizureLeavesListing(e: Mesh, states: seq<State>, puts: seq<Put>, seized: set<string>, reach: set<string>)
    requires AllSettled(e, puts) && Run(e, states, puts) && Proper(puts) && NoCollisions(e.h, puts)
    requires NoRepeats(e.nodes) && AllButSeized(e, seized, reach) && |seized| < e.replicas
    ensures AllPaths(Served(e, states[|puts|].blobs, INDEX, Some(reach))) == Paths(puts)
  {
    assert INDEX in AllKeys(e.h, puts);
    ReplicaSurvives(e, INDEX, seized, reach);
    ListsAllPaths(e, states, puts, Some(reach));
  }

  /** One node more is too many: seizing the replicas of a name hides it from every reader. */
  lemma SeizedNameIsLost(e: Mesh, s: State, path: string) returns (seized: set<string>)
    requires e.InRange() && e.Agreed(path) && NoRepeats(e.nodes)
    ensures |seized| == e.replicas && seized <= SetOf(e.nodes)
    ensures forall reach, r :: reach !! seized && IsRead(e, s, path, Some(reach), r) ==> r == Err(FileNotFound)
  {
    ReplicasDistinct(e.w, path, e.nodes, e.replicas);
    SetOfSize(e.on(path));
    seized := SetOf(e.on(path));
    forall reach, r | reach !! seized && IsRead(e, s, path, Some(reach), r) ensures r == Err(FileNotFound) {
      assert forall node :: node in e.on(path) ==> node in seized;
      NoneAnswers(BlobsReader(s.blobs), NameKey(path), e.on(path), reach);
    }
  }

  lemma {:induction false} NoneAnswers(get: BlobReader, key: BlobKey, targets: seq<string>, reach: set<string>)
    requires forall node :: node in targets ==> node !in reach
    ensures Answers(get, key, targets, Some(reach)) == []
    decreases |targets|
  {
    if targets != [] {
      assert targets[0] in targets;
      NoneAnswers(get, key, targets[1..], reach);
    }
  }

  /** A path that was never put is not found, whatever is reachable. */
  lemma NeverPutNotFound(e: Mesh, states: seq<State>, puts: seq<Put>, path: string, reachable: Option<set<string>>,
                         r: Result<(Bytes, NamespaceRef)>)
    requires AllSettled(e, puts) && Run(e, states, puts) && Proper(puts) && NoCollisions(e.h, puts)
    requires path != INDEX && Version(puts, path) == 0
    requires IsRead(e, states[|puts|], path, reachable, r)
    ensures r == Err(FileNotFound)
  {
    RunKeepsInv(e, states, puts);
    var s := states[|puts|];
    assert NameOk(e, s.blobs, puts, path);
    UniformAnswers(s.blobs, NameKey(path), e.on(path), reachable, None);
  }

  /** With one index replica in reach, the listing is exactly the set of paths ever put. */
  lemma ListsAllPaths(e: Mesh, states: seq<State>, puts: seq<Put>, reachable: Option<set<string>>)
    requires AllSettled(e, puts) && Run(e, states, puts) && Proper(puts) && NoCollisions(e.h, puts)
    requires SomeReplica(e, INDEX, reachable)
    ensures AllPaths(Served(e, states[|puts|].blobs, INDEX, reachable)) == Paths(puts)
    ensures forall path :: path in Paths(puts) <==> Version(puts, path) > 0
  {
    RunKeepsInv(e, states, puts);
    IndexServes(e, states[|puts|].blobs, puts, reachable);
    forall path ensures path in Paths(puts) <==> Version(puts, path) > 0 {
      PathsAreVersioned(puts, path);
    }
  }

  lemma {:induction false} PathsAreVersioned(puts: seq<Put>, path: string)
    ensures path in Paths(puts) <==> Version(puts, path) > 0
    decreases |puts|
  {
    if puts != [] {
      PathsAreVersioned(puts[..|puts| - 1], path);
    }
  }

  // ------------------------------------------------------- runs of the real methods

  /** On a proper path the ref stage never meets a list, so a put the mesh can take always completes. */
  lemma NoListServed(e: Mesh, s: State, puts: seq<Put>, m: Manifest, path: string)
    requires Inv(e, s, puts) && path != INDEX
    ensures !ServesList(Served(e, WithManifest(e, s.blobs, m), path, None))
  {
    assert NameOk(e, s.blobs, puts, path);
    var held := if Version(puts, path) == 0 then None else Some(RefBlob(CurrentRef(e.h, puts, path)));
    PublishedKeeps(e, s.blobs, m.root, ManifestKey(m.root), ManifestBlob(m), path, NameKey(path), held);
    UniformAnswers(WithManifest(e, s.blobs, m), NameKey(path), e.on(path), None, held);
  }

  /** The puts a mesh can take. */
  function Taken(e: Mesh, puts: seq<Put>): seq<Put> {
    if puts == [] then []
    else
      var n := |puts| - 1;
      Taken(e, puts[..n]) + (if Fits(puts[n].placement, e.nodes) then [puts[n]] else [])
  }

  /** Calling `put_file` repeatedly on an empty store is a run of exactly the puts the mesh can take. */
  method PutAllFiles(t: Tables, e: Mesh, puts: seq<Put>) returns (store: MeshStore, ghost states: seq<State>)
    requires AllSettled(e, puts) && t.Valid() && t.f == e.f && Proper(puts) && NoCollisions(e.h, puts)
    ensures Run(e, states, Taken(e, puts))
    ensures State(store.slots, store.blobs) == states[|Taken(e, puts)|]
  {
    store := new MeshStore();
    states := [State(map[], map[])];
    for i := 0 to |puts|
      invariant fresh(store)
      invariant Run(e, states, Taken(e, puts[..i]))
      invariant State(store.slots, store.blobs) == states[|Taken(e, puts[..i])|]
    {
      states := PutNext(t, e, store, puts, i, states);
    }
    assert puts[..|puts|] == puts;
  }

  method PutNext(t: Tables, e: Mesh, store: MeshStore, puts: seq<Put>, i: nat, ghost states: seq<State>)
      returns (ghost longer: seq<State>)
    requires AllSettled(e, puts) && t.Valid() && t.f == e.f && Proper(puts) && NoCollisions(e.h, puts) && i < |puts|
    requires Run(e, states, Taken(e, puts[..i]))
    requires State(store.slots, store.blobs) == states[|Taken(e, puts[..i])|]
    modifies store
    ensures Run(e, longer, Taken(e, puts[..i + 1]))
    ensures State(store.slots, store.blobs) == longer[|Taken(e, puts[..i + 1])|]
  {
    ghost var done := Taken(e, puts[..i]);
    TakenFacts(e, puts, i);
    TakenSettled(e, puts, i);
    RunKeepsInv(e, states, done);
    SettledAmong(e, puts, puts[i]);
    PutTaken(t, e, store, puts[i], done);
    longer := states;
    if Fits(puts[i].placement, e.nodes) {
      ghost var after := State(store.slots, store.blobs);
      RunGrows(e, states, done, after, puts[i]);
      longer := states + [after];
    } else {
      assert done + [] == done;
    }
  }

  /** A put the mesh can take completes; another changes nothing. */
  method PutTaken(t: Tables, e: Mesh, store: MeshStore, put: Put, ghost done: seq<Put>)
    requires e.InRange() && Settled(e, put) && t.Valid() && t.f == e.f && put.path != INDEX
    requires Inv(e, State(store.slots, store.blobs), done)
    modifies store
    ensures var before, after := State(old(store.slots), old(store.blobs)), State(store.slots, store.blobs);
      if Fits(put.placement, e.nodes) then Completes(e, before, after, put) else after == before
  {
    ghost var before := State(store.slots, store.blobs);
    ghost var m;
    var r;
    r, m := PutFile(t, e, store, put);
    if Fits(put.placement, e.nodes) {
      NoListServed(e, before, done, m, put.path);
      assert PutStep(e, before, State(store.slots, store.blobs), put, m, r.value);
    }
  }

  lemma {:induction false} TakenSubset(e: Mesh, puts: seq<Put>, j: nat)
    requires j < |Taken(e, puts)|
    ensures Taken(e, puts)[j] in puts
    decreases |puts|
  {
    if puts != [] {
      var n := |puts| - 1;
      if j < |Taken(e, puts[..n])| {
        TakenSubset(e, puts[..n], j);
      }
    }
  }

  lemma TakenFacts(e: Mesh, puts: seq<Put>, i: nat)
    requires i < |puts| && Proper(puts) && NoCollisions(e.h, puts)
    ensures Proper(Taken(e, puts[..i])) && NoCollisions(e.h, Taken(e, puts[..i]))
    ensures Taken(e, puts[..i + 1])
            == Taken(e, puts[..i]) + (if Fits(puts[i].placement, e.nodes) then [puts[i]] else [])
  {
    var taken := Taken(e, puts[..i]);
    forall j | 0 <= j < |taken| ensures taken[j] in puts {
      TakenSubset(e, puts[..i], j);
    }
    assert puts[..i + 1][..i] == puts[..i];
  }

  lemma TakenSettled(e: Mesh, puts: seq<Put>, i: nat)
    requires i <= |puts| && AllSettled(e, puts)
    ensures AllSettled(e, Taken(e, puts[..i]))
  {
    var taken := Taken(e, puts[..i]);
    forall put | put in taken ensures put in puts {
      var j :| 0 <= j < |taken| && taken[j] == put;
      TakenSubset(e, puts[..i], j);
    }
    assert AllKeys(e.h, taken) <= AllKeys(e.h, puts);
  }

  lemma RunGrows(e: Mesh, states: seq<State>, puts: seq<Put>, after: State, put: Put)
    requires Run(e, states, puts) && Completes(e, states[|puts|], after, put)
    ensures Run(e, states + [after], puts + [put])
  {
    var states', puts' := states + [after], puts + [put];
    forall i | 0 <= i < |puts'| ensures Completes(e, states'[i], states'[i + 1], puts'[i]) {
      if i < |puts| {
        assert Completes(e, states[i], states[i + 1], puts[i]);
      }
    }
  }
}

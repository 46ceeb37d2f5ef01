/**
  The Drive: put a file by name, get it by name, list the names.  A put writes
  the fragments, publishes the manifest, bumps the versioned ref and grows
  the directory index, in that order.
 */
module MeshSync {
  import opened Common
  import opened Fields
  import opened GfTables
  import opened Octets
  import opened HolographicIda
  import opened Lexicographic
  import opened MeshData
  import opened LeafPropagation
  import opened MeshNamespace

  const INDEX := "__index__"
  const TIER := "runtime"
  const MAX_ATTEMPTS: nat := 500

  /**
    A fixed mesh: its nodes, how many replicas a name has, the functions
    everyone shares, and the replica list everyone computes from them.
   */
  datatype Mesh = Mesh(f: Field<byte>, h: Hash, w: Weights, nodes: seq<string>, replicas: int,
                       on: string -> seq<string>)
  {
    /** The codec works over a field. */
    ghost predicate Valid() {
      IsField(f)
    }

    /** The replica count is one the mesh accepts. */
    predicate InRange() {
      1 <= replicas <= |nodes|
    }

    /** No two nodes weigh the same for the key, so that everyone finds its replicas. */
    ghost predicate Agreed(key: string) {
      && DistinctWeights(w, key, SetOf(nodes))
      && RefNodes(w, key, nodes, replicas) == if InRange() then Ok(on(key)) else Err(ValueError)
    }
  }

  /** The contents of the store. */
  datatype State = State(slots: map<Slot, Bytes>, blobs: map<Address, Blob>)

  /** One call of `put_file`, with the clock reading it makes. */
  datatype Put = Put(path: string, data: Bytes, placement: Placement, writer: string, now: string)

  /** The set a decoded blob turns into: a list gives its items, an object its keys. */
  function PathsIn(b: Blob): set<string> {
    match b
    case IndexBlob(paths) => paths
    case RefBlob(_) => {"path", "root", "version", "updated_at", "writer"}
    case ManifestBlob(_) => {"root", "k", "n", "orig_len", "tier", "replicas", "fragment_nodes"}
    case Garbage => {}
  }

  function AllPaths(bs: seq<Blob>): set<string> {
    if bs == [] then {} else PathsIn(bs[0]) + AllPaths(bs[1..])
  }

  /** The answers of a name's replicas. */
  ghost function Served(e: Mesh, blobs: map<Address, Blob>, path: string, reachable: Option<set<string>>): seq<Blob> {
    Answers(BlobsReader(blobs), NameKey(path), e.on(path), reachable)
  }

  function NextVersion(cur: Option<NamespaceRef>): int {
    if cur.Some? then cur.value.version + 1 else 1
  }

  // ------------------------------------------------------------------ operations

  method IndexRead(e: Mesh, store: MeshStore, reachable: Option<set<string>>) returns (r: Result<set<string>>)
    requires e.Agreed(INDEX)
    ensures r == if e.InRange() then Ok(AllPaths(Served(e, store.blobs, INDEX, reachable))) else Err(ValueError)
  {
    var all := ReadAll(e.w, INDEX, e.nodes, BlobsReader(store.blobs), e.replicas, reachable);
    if all.Err? {
      return Err(all.error);
    }
    var paths := Union(all.value);
    r := Ok(paths);
  }

  method Union(bs: seq<Blob>) returns (paths: set<string>)
    ensures paths == AllPaths(bs)
  {
    paths := {};
    for i := 0 to |bs|
      invariant paths + AllPaths(bs[i..]) == AllPaths(bs)
    {
      assert bs[i..][1..] == bs[i + 1..];
      paths := paths + PathsIn(bs[i]);
    }
    assert bs[|bs|..] == [];
  }

  method IndexAdd(e: Mesh, store: MeshStore, path: string) returns (r: Result<()>)
    requires e.Agreed(INDEX)
    modifies store`blobs
    ensures r == if e.InRange() then Ok(()) else Err(ValueError)
    ensures store.blobs == if e.InRange() then Indexed(e, old(store.blobs), path) else old(store.blobs)
  {
    var paths := IndexRead(e, store, None);
    if paths.Err? {
      return Err(paths.error);
    }
    var _ := PublishBlob(e.w, store, INDEX, IndexBlob(paths.value + {path}), e.nodes, e.replicas);
    r := Ok(());
  }

  ghost function Indexed(e: Mesh, blobs: map<Address, Blob>, path: string): map<Address, Blob> {
    Published(blobs, e.on(INDEX), NameKey(INDEX), IndexBlob(AllPaths(Served(e, blobs, INDEX, None)) + {path}))
  }

  ghost function WithManifest(e: Mesh, blobs: map<Address, Blob>, m: Manifest): map<Address, Blob> {
    Published(blobs, e.on(m.root), ManifestKey(m.root), ManifestBlob(m))
  }

  ghost function WithRef(e: Mesh, blobs: map<Address, Blob>, ref: NamespaceRef): map<Address, Blob> {
    Published(blobs, e.on(ref.path), NameKey(ref.path), RefBlob(ref))
  }

  /** The fragments of the put are in place. */
  ghost predicate Laid(e: Mesh, slots: map<Slot, Bytes>, slots': map<Slot, Bytes>, put: Put, m: Manifest) {
    && IsManifest(m, e.h, put.data, put.placement, e.nodes, TIER)
    && Written(slots, slots', m.root, m.fragmentNodes,
               Dispersed(e.f, put.data, put.placement.k, DefaultPoints(put.placement.k + put.placement.m)).fragments)
  }

  /** The ref has been bumped and the path indexed. */
  ghost predicate Named(e: Mesh, blobs: map<Address, Blob>, blobs': map<Address, Blob>, put: Put, root: string,
                        ref: NamespaceRef)
  {
    && (exists cur :: IsWinner(Served(e, blobs, put.path, None), put.path, cur)
         && ref == NamespaceRef(put.path, root, NextVersion(cur), put.now, put.writer))
    && blobs' == Indexed(e, WithRef(e, blobs, ref), put.path)
  }

  /** A completed put: every stage in order, from the store before to the store after. */
  ghost predicate PutStep(e: Mesh, s: State, s': State, put: Put, m: Manifest, ref: NamespaceRef) {
    && Laid(e, s.slots, s'.slots, put, m)
    && Named(e, WithManifest(e, s.blobs, m), s'.blobs, put, m.root, ref)
  }

  /** The keys of the records of a put. */
  function KeysOf(h: Hash, put: Put): set<string> {
    {INDEX, put.path, h(put.data)}
  }

  /** The replicas of all records of the put are settled. */
  ghost predicate Settled(e: Mesh, put: Put) {
    forall key :: key in KeysOf(e.h, put) ==> e.Agreed(key)
  }

  method Lay(t: Tables, e: Mesh, store: MeshStore, put: Put) returns (r: Result<Manifest>)
    requires t.Valid() && t.f == e.f
    modifies store`slots
    ensures r.Ok? <==> Fits(put.placement, e.nodes)
    ensures r.Ok? ==> Laid(e, old(store.slots), store.slots, put, r.value)
    ensures r.Err? ==> store.slots == old(store.slots)
  {
    r := Propagate(t, e.h, store, put.data, e.nodes, put.placement, TIER);
  }

  method PublishRef(e: Mesh, store: MeshStore, ref: NamespaceRef)
    requires e.InRange() && e.Agreed(ref.path)
    modifies store`blobs
    ensures store.blobs == WithRef(e, old(store.blobs), ref)
  {
    var _ := PublishBlob(e.w, store, ref.path, RefBlob(ref), e.nodes, e.replicas);
  }

  /** Resolve, bump and publish the ref, then index the path; a list where a ref should be raises. */
  method NameContent(e: Mesh, store: MeshStore, put: Put, root: string) returns (r: Result<NamespaceRef>)
    requires e.InRange() && e.Agreed(put.path) && e.Agreed(INDEX)
    modifies store`blobs
    ensures ServesList(Served(e, old(store.blobs), put.path, None)) ==>
      r == Err(TypeError) && store.blobs == old(store.blobs)
    ensures !ServesList(Served(e, old(store.blobs), put.path, None)) ==>
      r.Ok? && Named(e, old(store.blobs), store.blobs, put, root, r.value)
  {
    var cur := ResolveRef(e.w, put.path, e.nodes, BlobsReader(store.blobs), e.replicas, None);
    if cur.Err? {
      return Err(cur.error);
    }
    var ref := NamespaceRef(put.path, root, NextVersion(cur.value), put.now, put.writer);
    PublishRef(e, store, ref);
    var _ := IndexAdd(e, store, put.path);
    r := Ok(ref);
  }

  /**
    WRITE a file.  A placement the mesh cannot take changes nothing.  A replica
    count it cannot take raises once the fragments are written.  Otherwise the
    put completes, unless the path's own replicas serve a list, which only those
    of the index path do: then the manifest is published and nothing else.
   */
  method PutFile(t: Tables, e: Mesh, store: MeshStore, put: Put) returns (r: Result<NamespaceRef>, ghost m: Manifest)
    requires t.Valid() && t.f == e.f && Settled(e, put)
    modifies store
    ensures !Fits(put.placement, e.nodes) ==>
      r.Err? && store.slots == old(store.slots) && store.blobs == old(store.blobs)
    ensures Fits(put.placement, e.nodes) ==> Laid(e, old(store.slots), store.slots, put, m)
    ensures Fits(put.placement, e.nodes) && !e.InRange() ==> r == Err(ValueError) && store.blobs == old(store.blobs)
    ensures Fits(put.placement, e.nodes) && e.InRange() ==>
      var blobs := WithManifest(e, old(store.blobs), m);
      if ServesList(Served(e, blobs, put.path, None)) then r == Err(TypeError) && store.blobs == blobs
      else
        && r.Ok?
        && PutStep(e, State(old(store.slots), old(store.blobs)), State(store.slots, store.blobs), put, m, r.value)
  {
    var laid := Lay(t, e, store, put);
    if laid.Err? {
      m := Manifest("", 0, 0, 0, "", 0, map[]);
      return Err(laid.error), m;
    }
    m := laid.value;
    assert m.root in KeysOf(e.h, put) && put.path in KeysOf(e.h, put) && INDEX in KeysOf(e.h, put);
    var published := PublishManifest(e.w, store, laid.value, e.nodes, e.replicas);
    if published.Err? {
      return Err(published.error), m;
    }
    r := NameContent(e, store, put, laid.value.root);
  }

  /** The bytes behind a root: its manifest from any reachable replica, then a quorum of fragments. */
  ghost function ContentAt(e: Mesh, s: State, root: string, reachable: Option<set<string>>): Result<Bytes> {
    var m := ManifestAt(BlobsReader(s.blobs), root, e.on(root), reachable);
    if m.Err? then Err(m.error)
    else Fetched(e.f, e.h, m.value, StoreReader(s.slots), reachable, MAX_ATTEMPTS)
  }

  ghost function ReadOf(e: Mesh, s: State, reachable: Option<set<string>>, cur: Option<NamespaceRef>)
    : Result<(Bytes, NamespaceRef)>
  {
    if cur.None? then Err(FileNotFound)
    else
      var data := ContentAt(e, s, cur.value.root, reachable);
      if data.Err? then Err(data.error) else Ok((data.value, cur.value))
  }

  /** The outcome of `get_file`, errors included. */
  ghost predicate IsRead(e: Mesh, s: State, path: string, reachable: Option<set<string>>,
                         r: Result<(Bytes, NamespaceRef)>)
  {
    var served := Served(e, s.blobs, path, reachable);
    if !e.InRange() then r == Err(ValueError)
    else if ServesList(served) then r == Err(TypeError)
    else exists cur :: IsWinner(served, path, cur) && r == ReadOf(e, s, reachable, cur)
  }

  method GetContent(t: Tables, e: Mesh, store: MeshStore, root: string, reachable: Option<set<string>>)
    returns (r: Result<Bytes>)
    requires e.Valid() && t.Valid() && t.f == e.f && e.InRange() && e.Agreed(root)
    ensures r == ContentAt(e, State(store.slots, store.blobs), root, reachable)
  {
    var m := ResolveManifest(e.w, root, e.nodes, BlobsReader(store.blobs), e.replicas, reachable);
    if m.Err? {
      return Err(m.error);
    }
    r := Fetch(t, e.h, m.value, StoreReader(store.slots), reachable, MAX_ATTEMPTS);
  }

  /** The replicas of every root the answers name are settled. */
  ghost predicate RootsAgreed(e: Mesh, bs: seq<Blob>, path: string) {
    forall i :: 0 <= i < |bs| && IsRefFor(bs[i], path) ==> e.Agreed(bs[i].ref.root)
  }

  lemma WinnerAgreed(e: Mesh, bs: seq<Blob>, path: string, ref: NamespaceRef)
    requires RootsAgreed(e, bs, path) && IsWinner(bs, path, Some(ref))
    ensures e.Agreed(ref.root)
  {
    var i: nat :| WinsAt(bs, path, ref, i);
    assert IsRefFor(bs[i], path);
  }

  /** READ a file by name. */
  method GetFile(t: Tables, e: Mesh, store: MeshStore, path: string, reachable: Option<set<string>>)
    returns (r: Result<(Bytes, NamespaceRef)>)
    requires e.Valid() && t.Valid() && t.f == e.f && e.Agreed(path)
    requires RootsAgreed(e, Served(e, store.blobs, path, reachable), path)
    ensures IsRead(e, State(store.slots, store.blobs), path, reachable, r)
  {
    var ref := ResolveRef(e.w, path, e.nodes, BlobsReader(store.blobs), e.replicas, reachable);
    if ref.Err? {
      return Err(ref.error);
    }
    if ref.value.None? {
      return Err(FileNotFound);
    }
    WinnerAgreed(e, Served(e, store.blobs, path, reachable), path, ref.value.value);
    var data := GetContent(t, e, store, ref.value.value.root, reachable);
    r := if data.Err? then Err(data.error) else Ok((data.value, ref.value.value));
  }

  /** The names in the index, in order. */
  method ListFiles(e: Mesh, store: MeshStore, reachable: Option<set<string>>) returns (r: Result<seq<string>>)
    requires e.Agreed(INDEX)
    ensures if !e.InRange() then r == Err(ValueError)
            else r.Ok? && InOrder(r.value) && SetOf(r.value) == AllPaths(Served(e, store.blobs, INDEX, reachable))
  {
    var paths := IndexRead(e, store, reachable);
    if paths.Err? {
      return Err(paths.error);
    }
    var sorted := Sort(paths.value);
    r := Ok(sorted);
  }
}

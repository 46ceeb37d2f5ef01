/**
  Findable without a directory: a key's replicas are the nodes of highest
  rendezvous weight, so writer and reader compute the same set.  A name is a
  last-writer-wins register over its replicas; a manifest is accepted from any
  replica that serves the requested root.
 */
module MeshNamespace {
  import opened Common
  import opened Lexicographic
  import opened MeshData

  /** The rendezvous weight of a node for a key. */
  type Weights = (string, string) -> int

  /** No two of the nodes weigh the same for the key. */
  ghost predicate DistinctWeights(w: Weights, key: string, s: set<string>) {
    forall a, b :: a in s && b in s && a != b ==> w(key, a) != w(key, b)
  }

  predicate IsHeaviest(w: Weights, key: string, s: set<string>, node: string) {
    node in s && forall x :: x in s ==> w(key, x) <= w(key, node)
  }

  lemma {:induction false} SomeHeaviest(w: Weights, key: string, s: set<string>, node: string)
    requires node in s
    ensures exists x :: IsHeaviest(w, key, s, x)
    decreases |s|
  {
    if x :| x in s && w(key, x) > w(key, node) {
      SomeHeaviest(w, key, s - {node}, x);
      var y :| IsHeaviest(w, key, s - {node}, y);
      assert x in s - {node};
      forall z | z in s ensures w(key, z) <= w(key, y) {
        if z != node {
          assert z in s - {node};
        }
      }
      assert IsHeaviest(w, key, s, y);
    } else {
      assert IsHeaviest(w, key, s, node);
    }
  }

  function Heaviest(w: Weights, key: string, s: set<string>): (node: string)
    requires DistinctWeights(w, key, s) && s != {}
    ensures IsHeaviest(w, key, s, node)
  {
    SomeHeaviest(w, key, s, Member(s));
    var node :| IsHeaviest(w, key, s, node);
    node
  }

  /** The nodes in descending weight. */
  function Ranked(w: Weights, key: string, s: set<string>): (r: seq<string>)
    requires DistinctWeights(w, key, s)
    ensures |r| == |s| && forall x :: x in r <==> x in s
  {
    if s == {} then []
    else
      var node := Heaviest(w, key, s);
      var rest := Ranked(w, key, s - {node});
      assert s == (s - {node}) + {node};
      [node] + rest
  }

  /** The replica set of a key: the nodes of highest weight. */
  function RefNodes(w: Weights, key: string, nodes: seq<string>, replicas: int): Result<seq<string>>
    requires DistinctWeights(w, key, SetOf(nodes))
  {
    if replicas < 1 || replicas > |nodes| then Err(ValueError)
    else
      var ranked := Ranked(w, key, SetOf(nodes));
      Ok(if replicas <= |ranked| then ranked[..replicas] else ranked)
  }

  ghost predicate Descending(w: Weights, key: string, s: seq<string>) {
    forall i, j :: 0 <= i < j < |s| ==> w(key, s[i]) > w(key, s[j])
  }

  lemma {:induction false} RankedDescends(w: Weights, key: string, s: set<string>)
    requires DistinctWeights(w, key, s)
    ensures Descending(w, key, Ranked(w, key, s))
    decreases |s|
  {
    if s != {} {
      var first := Heaviest(w, key, s);
      RankedDescends(w, key, s - {first});
      HeaviestFirst(w, key, first, Ranked(w, key, s - {first}));
    }
  }

  lemma HeaviestFirst(w: Weights, key: string, first: string, rest: seq<string>)
    requires Descending(w, key, rest) && forall x :: x in rest ==> w(key, first) > w(key, x)
    ensures Descending(w, key, [first] + rest)
  {
    forall j | 0 <= j < |rest| ensures w(key, first) > w(key, rest[j]) {
      assert rest[j] in rest;
    }
  }

  /** The replicas of a key outweigh every other node for it, the heaviest first. */
  lemma ReplicasOutweigh(w: Weights, key: string, nodes: seq<string>, replicas: int)
    requires DistinctWeights(w, key, SetOf(nodes)) && 1 <= replicas <= |nodes|
    ensures var r := RefNodes(w, key, nodes, replicas).value;
      Descending(w, key, r) && forall x, y :: x in r && y in nodes && y !in r ==> w(key, x) > w(key, y)
  {
    var s := SetOf(nodes);
    RankedDescends(w, key, s);
    PrefixOutweighs(w, key, Ranked(w, key, s), RefNodes(w, key, nodes, replicas).value);
    assert forall y :: y in nodes ==> y in s;
  }

  lemma PrefixOutweighs(w: Weights, key: string, ranked: seq<string>, r: seq<string>)
    requires Descending(w, key, ranked) && r <= ranked
    ensures Descending(w, key, r) && forall x, y :: x in r && y in ranked && y !in r ==> w(key, x) > w(key, y)
  {
    forall x, y | x in r && y in ranked && y !in r ensures w(key, x) > w(key, y) {
      var i :| 0 <= i < |r| && r[i] == x;
      var j :| 0 <= j < |ranked| && ranked[j] == y;
      OutsidePrefix(ranked, r, j);
    }
  }

  lemma OutsidePrefix(s: seq<string>, prefix: seq<string>, j: nat)
    requires prefix <= s && j < |s| && s[j] !in prefix
    ensures j >= |prefix|
  {
  }

  /** A mesh that accepts the replica count has a replica for every key. */
  lemma ReplicasExist(w: Weights, key: string, nodes: seq<string>, replicas: int)
    requires DistinctWeights(w, key, SetOf(nodes)) && 1 <= replicas <= |nodes|
    ensures RefNodes(w, key, nodes, replicas).Ok? && RefNodes(w, key, nodes, replicas).value != []
  {
    assert nodes[0] in SetOf(nodes);
    assert nodes[0] in Ranked(w, key, SetOf(nodes));
  }

  lemma {:induction false} RankedNoRepeats(w: Weights, key: string, s: set<string>)
    requires DistinctWeights(w, key, s)
    ensures NoRepeats(Ranked(w, key, s))
    decreases |s|
  {
    if s != {} {
      RankedNoRepeats(w, key, s - {Heaviest(w, key, s)});
    }
  }

  /** On distinct nodes a key has as many replicas as asked for, each on its own node. */
  lemma ReplicasDistinct(w: Weights, key: string, nodes: seq<string>, replicas: int)
    requires NoRepeats(nodes) && DistinctWeights(w, key, SetOf(nodes)) && 1 <= replicas <= |nodes|
    ensures var r := RefNodes(w, key, nodes, replicas);
      r.Ok? && |r.value| == replicas && NoRepeats(r.value) && SetOf(r.value) <= SetOf(nodes)
  {
    SetOfSize(nodes);
    RankedNoRepeats(w, key, SetOf(nodes));
    var ranked := Ranked(w, key, SetOf(nodes));
    assert forall x :: x in ranked[..replicas] ==> x in ranked;
  }

  /** Losing a node outside the first `count` does not change them. */
  lemma {:induction false} RankedStable(w: Weights, key: string, s: set<string>, gone: string, count: nat)
    requires DistinctWeights(w, key, s) && count <= |s| && gone !in Ranked(w, key, s)[..count]
    ensures count <= |s - {gone}|
    ensures Ranked(w, key, s - {gone})[..count] == Ranked(w, key, s)[..count]
    decreases |s|
  {
    if count > 0 {
      var first := Heaviest(w, key, s);
      StableStep(w, key, s, gone, count);
      RankedStable(w, key, s - {first}, gone, count - 1);
      RankedHead(w, key, s, count);
      RankedHead(w, key, s - {gone}, count);
    }
  }

  lemma StableStep(w: Weights, key: string, s: set<string>, gone: string, count: nat)
    requires DistinctWeights(w, key, s) && 0 < count <= |s| && gone !in Ranked(w, key, s)[..count]
    ensures s - {gone} != {} && Heaviest(w, key, s - {gone}) == Heaviest(w, key, s)
    ensures gone !in Ranked(w, key, s - {Heaviest(w, key, s)})[..count - 1]
    ensures (s - {gone}) - {Heaviest(w, key, s)} == (s - {Heaviest(w, key, s)}) - {gone}
    ensures |s - {gone}| == |(s - {gone}) - {Heaviest(w, key, s)}| + 1
  {
    var first := Heaviest(w, key, s);
    RankedHead(w, key, s, count);
    assert first in Ranked(w, key, s)[..count];
    assert first in s - {gone};
    HeaviestUnique(w, key, s - {gone}, first, Heaviest(w, key, s - {gone}));
  }

  lemma RankedHead(w: Weights, key: string, s: set<string>, count: nat)
    requires DistinctWeights(w, key, s) && 0 < count <= |s|
    ensures Ranked(w, key, s)[..count]
            == [Heaviest(w, key, s)] + Ranked(w, key, s - {Heaviest(w, key, s)})[..count - 1]
  {
  }

  lemma HeaviestUnique(w: Weights, key: string, s: set<string>, a: string, b: string)
    requires DistinctWeights(w, key, s) && IsHeaviest(w, key, s, a) && IsHeaviest(w, key, s, b)
    ensures a == b
  {
  }

  // ---------------------------------------------------------------- publishing

  /** The blobs after every target has stored `blob` under `key`. */
  function Published(blobs: map<Address, Blob>, targets: seq<string>, key: BlobKey, blob: Blob): map<Address, Blob> {
    if targets == [] then blobs
    else
      var n := |targets| - 1;
      Published(blobs, targets[..n], key, blob)[Address(targets[n], key) := blob]
  }

  /** Exactly the targets' copies under the key change. */
  lemma {:induction false} PublishedAt(blobs: map<Address, Blob>, targets: seq<string>, key: BlobKey, blob: Blob,
                                       a: Address)
    ensures var after := Published(blobs, targets, key, blob);
            if a.key == key && a.node in targets then a in after && after[a] == blob
            else (a in after <==> a in blobs) && (a in after ==> after[a] == blobs[a])
    decreases |targets|
  {
    if targets != [] {
      var n := |targets| - 1;
      PublishedAt(blobs, targets[..n], key, blob, a);
      assert targets == targets[..n] + [targets[n]];
    }
  }

  method Publish(store: MeshStore, targets: seq<string>, key: BlobKey, blob: Blob)
    modifies store`blobs
    ensures store.blobs == Published(old(store.blobs), targets, key, blob)
  {
    for i := 0 to |targets|
      invariant store.blobs == Published(old(store.blobs), targets[..i], key, blob)
    {
      store.PutBlob(targets[i], key, blob);
      assert targets[..i + 1][..i] == targets[..i];
    }
    assert targets[..|targets|] == targets;
  }

  /** Replicate a blob under a name. */
  method PublishBlob(w: Weights, store: MeshStore, name: string, blob: Blob, nodes: seq<string>, replicas: int)
    returns (r: Result<seq<string>>)
    requires DistinctWeights(w, name, SetOf(nodes))
    modifies store`blobs
    ensures r == RefNodes(w, name, nodes, replicas)
    ensures r.Ok? ==> store.blobs == Published(old(store.blobs), r.value, NameKey(name), blob)
    ensures r.Err? ==> store.blobs == old(store.blobs)
  {
    r := RefNodes(w, name, nodes, replicas);
    if r.Ok? {
      Publish(store, r.value, NameKey(name), blob);
    }
  }

  method PublishManifest(w: Weights, store: MeshStore, m: Manifest, nodes: seq<string>, replicas: int)
    returns (r: Result<seq<string>>)
    requires DistinctWeights(w, m.root, SetOf(nodes))
    modifies store`blobs
    ensures r == RefNodes(w, m.root, nodes, replicas)
    ensures r.Ok? ==> store.blobs == Published(old(store.blobs), r.value, ManifestKey(m.root), ManifestBlob(m))
    ensures r.Err? ==> store.blobs == old(store.blobs)
  {
    r := RefNodes(w, m.root, nodes, replicas);
    if r.Ok? {
      Publish(store, r.value, ManifestKey(m.root), ManifestBlob(m));
    }
  }

  // ------------------------------------------------------------------- reading

  /** The answers of the reachable replicas, in the order of the list. */
  function Answers(get: BlobReader, key: BlobKey, targets: seq<string>, reachable: Option<set<string>>): seq<Blob> {
    if targets == [] then []
    else
      var b := if Reachable(reachable, targets[0]) then get(Address(targets[0], key)) else None;
      (if b.Some? then [b.value] else []) + Answers(get, key, targets[1..], reachable)
  }

  method ReadAll(w: Weights, name: string, nodes: seq<string>, get: BlobReader, replicas: int,
                 reachable: Option<set<string>>)
    returns (r: Result<seq<Blob>>)
    requires DistinctWeights(w, name, SetOf(nodes))
    ensures var targets := RefNodes(w, name, nodes, replicas);
            r == if targets.Err? then Err(targets.error) else Ok(Answers(get, NameKey(name), targets.value, reachable))
  {
    var targets := RefNodes(w, name, nodes, replicas);
    if targets.Err? {
      return Err(targets.error);
    }
    var out := Ask(get, NameKey(name), targets.value, reachable);
    r := Ok(out);
  }

  lemma AnswersStep(get: BlobReader, key: BlobKey, targets: seq<string>, reachable: Option<set<string>>, i: nat,
                    out: seq<Blob>)
    requires i < |targets|
    ensures var b := if Reachable(reachable, targets[i]) then get(Address(targets[i], key)) else None;
      out + Answers(get, key, targets[i..], reachable)
      == (if b.Some? then out + [b.value] else out) + Answers(get, key, targets[i + 1..], reachable)
  {
    assert targets[i..][0] == targets[i] && targets[i..][1..] == targets[i + 1..];
  }

  method Ask(get: BlobReader, key: BlobKey, targets: seq<string>, reachable: Option<set<string>>)
    returns (out: seq<Blob>)
    ensures out == Answers(get, key, targets, reachable)
  {
    out := [];
    for i := 0 to |targets|
      invariant out + Answers(get, key, targets[i..], reachable) == Answers(get, key, targets, reachable)
    {
      AnswersStep(get, key, targets, reachable, i, out);
      if Reachable(reachable, targets[i]) {
        var b := get(Address(targets[i], key));
        if b.Some? {
          out := out + [b.value];
        }
      }
    }
    assert targets[|targets|..] == [];
  }

  // --------------------------------------------------- last writer wins

  /** Order of (version, updated_at, writer). */
  predicate Older(a: NamespaceRef, b: NamespaceRef) {
    || a.version < b.version
    || (a.version == b.version && Before(a.updatedAt, b.updatedAt))
    || (a.version == b.version && a.updatedAt == b.updatedAt && Before(a.writer, b.writer))
  }

  lemma OlderTransitive(a: NamespaceRef, b: NamespaceRef, c: NamespaceRef)
    requires Older(a, b) && Older(b, c)
    ensures Older(a, c)
  {
    if Before(a.updatedAt, b.updatedAt) && Before(b.updatedAt, c.updatedAt) {
      BeforeTransitive(a.updatedAt, b.updatedAt, c.updatedAt);
    }
    if Before(a.writer, b.writer) && Before(b.writer, c.writer) {
      BeforeTransitive(a.writer, b.writer, c.writer);
    }
  }

  lemma OlderTotal(a: NamespaceRef, b: NamespaceRef)
    ensures !(Older(a, b) && Older(b, a))
    ensures !Older(a, b) && !Older(b, a) ==>
      a.version == b.version && a.updatedAt == b.updatedAt && a.writer == b.writer
  {
    BeforeTotal(a.updatedAt, b.updatedAt);
    BeforeTotal(a.writer, b.writer);
  }

  /** A served blob that decodes to a ref for this path. */
  predicate IsRefFor(b: Blob, path: string) {
    b.RefBlob? && b.ref.path == path
  }

  /** The answer at i is newer than the valid ones before it and not older than any after it. */
  ghost predicate WinsAt(bs: seq<Blob>, path: string, r: NamespaceRef, i: nat) {
    && i < |bs| && bs[i] == RefBlob(r) && r.path == path
    && (forall j :: 0 <= j < i && IsRefFor(bs[j], path) ==> Older(bs[j].ref, r))
    && (forall j :: i < j < |bs| && IsRefFor(bs[j], path) ==> !Older(r, bs[j].ref))
  }

  /** The register's value: the first of the newest valid answers. */
  ghost predicate IsWinner(bs: seq<Blob>, path: string, best: Option<NamespaceRef>) {
    match best
    case None => forall i :: 0 <= i < |bs| ==> !IsRefFor(bs[i], path)
    case Some(r) => exists i: nat :: WinsAt(bs, path, r, i)
  }

  /** Every reader that sees the same answers picks the same ref, and none is newer. */
  lemma WinnerUnique(bs: seq<Blob>, path: string, a: Option<NamespaceRef>, b: Option<NamespaceRef>)
    requires IsWinner(bs, path, a) && IsWinner(bs, path, b)
    ensures a == b
    ensures a.Some? ==> forall i :: 0 <= i < |bs| && IsRefFor(bs[i], path) ==> !Older(a.value, bs[i].ref)
  {
    if a.Some? && b.Some? {
      var i: nat :| WinsAt(bs, path, a.value, i);
      var j: nat :| WinsAt(bs, path, b.value, j);
      assert IsRefFor(bs[i], path) && IsRefFor(bs[j], path);
      OlderTotal(a.value, b.value);
      forall n | 0 <= n < |bs| && IsRefFor(bs[n], path) ensures !Older(a.value, bs[n].ref) {
        OlderTotal(a.value, bs[n].ref);
      }
    }
  }

  /** The winner has the highest version; among those the latest time; among those the last writer. */
  lemma NewestWins(bs: seq<Blob>, path: string, r: NamespaceRef, i: nat)
    requires IsWinner(bs, path, Some(r)) && i < |bs| && IsRefFor(bs[i], path)
    ensures var q := bs[i].ref;
      && q.version <= r.version
      && (q.version == r.version ==> q.updatedAt == r.updatedAt || Before(q.updatedAt, r.updatedAt))
      && (q.version == r.version && q.updatedAt == r.updatedAt ==>
            q.writer == r.writer || Before(q.writer, r.writer))
  {
    WinnerUnique(bs, path, Some(r), Some(r));
    BeforeTotal(bs[i].ref.updatedAt, r.updatedAt);
    BeforeTotal(bs[i].ref.writer, r.writer);
  }

  /** Some answer is a list, the shape of an index. */
  ghost predicate ServesList(bs: seq<Blob>) {
    exists i :: 0 <= i < |bs| && bs[i].IndexBlob?
  }

  /**
    The last-writer-wins winner among the reachable replicas.  An answer that
    is no ref for this path is skipped, except that a list raises.
   */
  method ResolveRef(w: Weights, path: string, nodes: seq<string>, get: BlobReader, replicas: int,
                    reachable: Option<set<string>>)
    returns (r: Result<Option<NamespaceRef>>)
    requires DistinctWeights(w, path, SetOf(nodes))
    ensures var targets := RefNodes(w, path, nodes, replicas);
            if targets.Err? then r == Err(ValueError)
            else
              var bs := Answers(get, NameKey(path), targets.value, reachable);
              if ServesList(bs) then r == Err(TypeError)
              else r.Ok? && IsWinner(bs, path, r.value)
  {
    var all := ReadAll(w, path, nodes, get, replicas, reachable);
    if all.Err? {
      return Err(all.error);
    }
    r := Winner(all.value, path);
  }

  method Winner(bs: seq<Blob>, path: string) returns (r: Result<Option<NamespaceRef>>)
    ensures if ServesList(bs) then r == Err(TypeError)
            else r.Ok? && IsWinner(bs, path, r.value)
  {
    var best: Option<NamespaceRef> := None;
    for i := 0 to |bs|
      invariant forall j :: 0 <= j < i ==> !bs[j].IndexBlob?
      invariant IsWinner(bs[..i], path, best)
    {
      var b := bs[i];
      assert bs[..i + 1] == bs[..i] + [b];
      if b.IndexBlob? {
        return Err(TypeError);
      }
      WinnerStep(bs[..i], path, best, b);
      if IsRefFor(b, path) && (best.None? || Older(best.value, b.ref)) {
        best := Some(b.ref);
      }
    }
    assert bs[..|bs|] == bs;
    r := Ok(best);
  }

  lemma WinnerStep(bs: seq<Blob>, path: string, best: Option<NamespaceRef>, b: Blob)
    requires IsWinner(bs, path, best)
    ensures IsWinner(bs + [b], path,
                     if IsRefFor(b, path) && (best.None? || Older(best.value, b.ref)) then Some(b.ref) else best)
  {
    var all := bs + [b];
    if IsRefFor(b, path) && (best.None? || Older(best.value, b.ref)) {
      forall j | 0 <= j < |bs| && IsRefFor(all[j], path) ensures Older(all[j].ref, b.ref) {
        var i: nat :| WinsAt(bs, path, best.value, i);
        if j < i {
          OlderTransitive(bs[j].ref, best.value, b.ref);
        } else if j > i {
          NotOlderThenOlder(best.value, bs[j].ref, b.ref);
        }
      }
      assert WinsAt(all, path, b.ref, |bs|);
    } else if best.Some? {
      var i: nat :| WinsAt(bs, path, best.value, i);
      assert WinsAt(all, path, best.value, i);
    }
  }

  /** What is not newer than a, while a is older than c, is older than c. */
  lemma NotOlderThenOlder(a: NamespaceRef, b: NamespaceRef, c: NamespaceRef)
    requires !Older(a, b) && Older(a, c)
    ensures Older(b, c)
  {
    OlderTotal(a, b);
    if Older(b, a) {
      OlderTransitive(b, a, c);
    }
  }

  // ----------------------------------------------------------------- manifests

  /** The first reachable replica that serves the requested root; undecodable answers raise. */
  function ManifestAt(get: BlobReader, root: string, targets: seq<string>, reachable: Option<set<string>>)
    : Result<Manifest>
  {
    if targets == [] then Err(ManifestUnavailable)
    else
      var b := if Reachable(reachable, targets[0]) then get(Address(targets[0], ManifestKey(root))) else None;
      match b
      case None => ManifestAt(get, root, targets[1..], reachable)
      case Some(ManifestBlob(m)) => if m.root == root then Ok(m) else ManifestAt(get, root, targets[1..], reachable)
      case Some(RefBlob(_)) => Err(KeyError)
      case Some(IndexBlob(_)) => Err(TypeError)
      case Some(Garbage) => Err(ValueError)
  }

  method ResolveManifest(w: Weights, root: string, nodes: seq<string>, get: BlobReader, replicas: int,
                         reachable: Option<set<string>>)
    returns (r: Result<Manifest>)
    requires DistinctWeights(w, root, SetOf(nodes))
    ensures var targets := RefNodes(w, root, nodes, replicas);
            r == if targets.Err? then Err(targets.error) else ManifestAt(get, root, targets.value, reachable)
  {
    var targets := RefNodes(w, root, nodes, replicas);
    if targets.Err? {
      return Err(targets.error);
    }
    var ts := targets.value;
    for i := 0 to |ts|
      invariant ManifestAt(get, root, ts, reachable) == ManifestAt(get, root, ts[i..], reachable)
    {
      assert ts[i..][0] == ts[i] && ts[i..][1..] == ts[i + 1..];
      if !Reachable(reachable, ts[i]) {
        continue;
      }
      var b := get(Address(ts[i], ManifestKey(root)));
      match b {
        case None =>
        case Some(ManifestBlob(m)) =>
          if m.root == root {
            return Ok(m);
          }
        case Some(RefBlob(_)) => return Err(KeyError);
        case Some(IndexBlob(_)) => return Err(TypeError);
        case Some(Garbage) => return Err(ValueError);
      }
    }
    assert ts[|ts|..] == [];
    r := Err(ManifestUnavailable);
  }

  /** Whatever the replicas serve, an accepted manifest is for the requested root. */
  lemma {:induction false} ManifestHasRoot(get: BlobReader, root: string, targets: seq<string>,
                                           reachable: Option<set<string>>)
    ensures var r := ManifestAt(get, root, targets, reachable); r.Ok? ==> r.value.root == root
    decreases |targets|
  {
    if targets != [] {
      ManifestHasRoot(get, root, targets[1..], reachable);
    }
  }
}

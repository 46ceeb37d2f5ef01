/** The values a mesh stores, and the store itself: fragment slots and small blobs. */
module MeshData {
  import opened Octets
  import opened Common

  type Bytes = seq<byte>

  /** The content commitment of a leaf. */
  type Hash = Bytes -> string

  /** The place of one fragment copy: a node, and the content-scoped key "root#index". */
  datatype Slot = Slot(node: string, root: string, x: Point)

  /** What a node answers for a slot: its bytes, or nothing (absent, unreachable or failing). */
  type Reader = Slot -> Option<Bytes>

  datatype Manifest = Manifest(root: string, k: nat, n: nat, origLen: nat, tier: string, replicas: nat,
                               fragmentNodes: map<Point, seq<string>>)

  /** How a leaf is laid down: data shards, parity shards, copies of each shard. */
  datatype Placement = Placement(k: nat, m: nat, shardReplicas: nat)

  /** A versioned ref from a path to the root of its current content. */
  datatype NamespaceRef = NamespaceRef(path: string, root: string, version: int, updatedAt: string, writer: string)

  /** A decoded blob; `Garbage` is one that does not parse. */
  datatype Blob =
    | ManifestBlob(manifest: Manifest)
    | RefBlob(ref: NamespaceRef)
    | IndexBlob(paths: set<string>)
    | Garbage

  /** "manifest:<root>" and "ns:<name>". */
  datatype BlobKey = ManifestKey(root: string) | NameKey(name: string)

  datatype Address = Address(node: string, key: BlobKey)

  type BlobReader = Address -> Option<Blob>

  /** The storage of the whole mesh. */
  class MeshStore {
    var slots: map<Slot, Bytes>
    var blobs: map<Address, Blob>

    constructor ()
      ensures slots == map[] && blobs == map[]
    {
      slots, blobs := map[], map[];
    }

    method Put(node: string, root: string, x: Point, data: Bytes)
      modifies this`slots
      ensures slots == old(slots)[Slot(node, root, x) := data]
    {
      slots := slots[Slot(node, root, x) := data];
    }

    method PutBlob(node: string, key: BlobKey, blob: Blob)
      modifies this`blobs
      ensures blobs == old(blobs)[Address(node, key) := blob]
    {
      blobs := blobs[Address(node, key) := blob];
    }
  }

  predicate Reachable(reachable: Option<set<string>>, node: string) {
    reachable.None? || node in reachable.value
  }

  /** An honest node answers with what it holds. */
  function StoreReader(slots: map<Slot, Bytes>): Reader {
    s => if s in slots then Some(slots[s]) else None
  }

  function BlobsReader(blobs: map<Address, Blob>): BlobReader {
    a => if a in blobs then Some(blobs[a]) else None
  }
}

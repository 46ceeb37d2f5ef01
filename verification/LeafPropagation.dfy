/**
  The write and read path of a leaf: disperse and place its fragments, then
  gather what is reachable and try selections until one matches the root.
 */
module LeafPropagation {
  import opened Fields
  import opened GfTables
  import opened Octets
  import opened HolographicIda
  import opened FragmentPlacement
  import opened Combinations
  import opened Common
  import opened MeshData

  // ----------------------------------------------------------------------- writing

  /** A placement of the fragments of `root` names this slot. */
  ghost predicate Names(mapping: map<Point, seq<string>>, root: string, s: Slot) {
    s.root == root && s.x in mapping && s.node in mapping[s.x]
  }

  /** Every named slot now holds its fragment and nothing else changed. */
  ghost predicate Written(before: map<Slot, Bytes>, after: map<Slot, Bytes>, root: string,
                          mapping: map<Point, seq<string>>, frags: map<Point, Bytes>)
    requires forall x :: x in mapping ==> x in frags
  {
    && (forall s :: Names(mapping, root, s) ==> s in after && after[s] == frags[s.x])
    && (forall s :: !Names(mapping, root, s) ==>
          (s in after <==> s in before) && (s in after ==> after[s] == before[s]))
  }

  /** The slots of the listed fragments have been written, and no other slot. */
  ghost predicate WrittenFor(before: map<Slot, Bytes>, after: map<Slot, Bytes>, root: string, xs: seq<Point>,
                             mapping: map<Point, seq<string>>, frags: map<Point, Bytes>)
    requires forall x :: x in mapping ==> x in frags
  {
    && (forall s :: Names(mapping, root, s) && s.x in xs ==> s in after && after[s] == frags[s.x])
    && (forall s :: !(Names(mapping, root, s) && s.x in xs) ==>
          (s in after <==> s in before) && (s in after ==> after[s] == before[s]))
  }

  method PutCopies(store: MeshStore, root: string, x: Point, nodes: seq<string>, data: Bytes)
    modifies store`slots
    ensures forall s: Slot :: s.root == root && s.x == x && s.node in nodes ==>
            s in store.slots && store.slots[s] == data
    ensures forall s: Slot :: !(s.root == root && s.x == x && s.node in nodes) ==>
      (s in store.slots <==> s in old(store.slots)) && (s in store.slots ==> store.slots[s] == old(store.slots)[s])
  {
    for i := 0 to |nodes|
      invariant forall s: Slot :: s.root == root && s.x == x && s.node in nodes[..i] ==>
        s in store.slots && store.slots[s] == data
      invariant forall s: Slot :: !(s.root == root && s.x == x && s.node in nodes[..i]) ==>
        (s in store.slots <==> s in old(store.slots)) && (s in store.slots ==> store.slots[s] == old(store.slots)[s])
    {
      store.Put(nodes[i], root, x, data);
      assert nodes[..i + 1] == nodes[..i] + [nodes[i]];
    }
    assert nodes[..|nodes|] == nodes;
  }

  /** Hand every copy of every fragment to the store. */
  method PutAll(store: MeshStore, root: string, mapping: map<Point, seq<string>>, frags: map<Point, Bytes>)
    requires forall x :: x in mapping ==> x in frags
    modifies store`slots
    ensures Written(old(store.slots), store.slots, root, mapping, frags)
  {
    var xs := Keys(mapping);
    for i := 0 to |xs|
      invariant WrittenFor(old(store.slots), store.slots, root, xs[..i], mapping, frags)
    {
      ghost var before := store.slots;
      assert xs[i] in xs;
      PutCopies(store, root, xs[i], mapping[xs[i]], frags[xs[i]]);
      assert xs[..i + 1] == xs[..i] + [xs[i]];
      WrittenNext(old(store.slots), before, store.slots, root, xs[..i], xs[i], mapping, frags);
    }
    assert xs[..|xs|] == xs;
  }

  lemma WrittenNext(start: map<Slot, Bytes>, before: map<Slot, Bytes>, after: map<Slot, Bytes>, root: string,
                    xs: seq<Point>, x: Point, mapping: map<Point, seq<string>>, frags: map<Point, Bytes>)
    requires x in mapping && forall x :: x in mapping ==> x in frags
    requires WrittenFor(start, before, root, xs, mapping, frags)
    requires forall s: Slot :: s.root == root && s.x == x && s.node in mapping[x] ==> s in after && after[s] == frags[x]
    requires forall s: Slot :: !(s.root == root && s.x == x && s.node in mapping[x]) ==>
      (s in after <==> s in before) && (s in after ==> after[s] == before[s])
    ensures WrittenFor(start, after, root, xs + [x], mapping, frags)
  {
  }

  /** The keys of a placement, in some order. */
  method Keys(mapping: map<Point, seq<string>>) returns (xs: seq<Point>)
    ensures NoRepeats(xs) && forall x :: x in xs <==> x in mapping
  {
    xs := SortedPoints(mapping.Keys);
  }

  /** The placements a mesh can take: a valid code, and a node for every copy. */
  predicate Fits(p: Placement, nodes: seq<string>) {
    && 1 <= p.k && p.k + p.m <= 255
    && 0 < (p.k + p.m) * p.shardReplicas <= |nodes|
  }

  ghost predicate IsManifest(m: Manifest, h: Hash, leaf: Bytes, p: Placement, nodes: seq<string>, tier: string) {
    && Fits(p, nodes)
    && m.root == h(leaf) && m.k == p.k && m.n == p.k + p.m && m.origLen == |leaf|
    && m.tier == tier && m.replicas == p.shardReplicas
    && IsPlacement(m.fragmentNodes, nodes, DefaultPoints(m.n), m.replicas)
  }

  method PlaceFragments(nodes: seq<string>, n: nat, xs: seq<Point>, replicas: nat)
    returns (r: Result<map<Point, seq<string>>>)
    requires |xs| == n && NoRepeats(xs)
    ensures r.Ok? <==> 0 < n * replicas <= |nodes|
    ensures r.Ok? ==> IsPlacement(r.value, nodes, xs, replicas)
  {
    r := Place(nodes, xs, replicas);
    if r.Ok? {
      DistinctIdsPlaced(r.value, nodes, xs, replicas);
    }
  }

  /** WRITE a leaf.  Nothing is stored unless the whole placement is possible. */
  method Propagate(t: Tables, h: Hash, store: MeshStore, leaf: Bytes, nodes: seq<string>, p: Placement, tier: string)
    returns (r: Result<Manifest>)
    requires t.Valid()
    modifies store`slots
    ensures r.Ok? <==> Fits(p, nodes)
    ensures r.Ok? ==> IsManifest(r.value, h, leaf, p, nodes, tier)
    ensures r.Ok? ==> Written(old(store.slots), store.slots, h(leaf), r.value.fragmentNodes,
                              Dispersed(t.f, leaf, p.k, DefaultPoints(p.k + p.m)).fragments)
    ensures r.Err? ==> store.slots == old(store.slots)
  {
    var n := p.k + p.m;
    var d := Disperse(t, leaf, p.k, n, None);
    if d.Err? {
      return Err(d.error);
    }
    var mapping := PlaceFragments(nodes, n, d.value.xs, p.shardReplicas);
    if mapping.Err? {
      return Err(mapping.error);
    }
    PutAll(store, h(leaf), mapping.value, d.value.fragments);
    r := Ok(Manifest(h(leaf), p.k, n, |leaf|, tier, p.shardReplicas, mapping.value));
  }

  // ----------------------------------------------------------------------- reading

  /** The first answer of a reachable node, in the order of the list. */
  function FirstAnswer(get: Reader, root: string, x: Point, nodes: seq<string>, reachable: Option<set<string>>)
    : Option<Bytes>
  {
    if nodes == [] then None
    else if Reachable(reachable, nodes[0]) && get(Slot(nodes[0], root, x)).Some? then get(Slot(nodes[0], root, x))
    else FirstAnswer(get, root, x, nodes[1..], reachable)
  }

  function AnswerFor(get: Reader, m: Manifest, reachable: Option<set<string>>, x: Point): Option<Bytes>
    requires x in m.fragmentNodes
  {
    FirstAnswer(get, m.root, x, m.fragmentNodes[x], reachable)
  }

  /** What the reader gathers: for each fragment, the first copy that answers. */
  ghost function Gathered(get: Reader, m: Manifest, reachable: Option<set<string>>): map<Point, Bytes> {
    map x: Point | x in m.fragmentNodes && AnswerFor(get, m, reachable, x).Some? ::
      AnswerFor(get, m, reachable, x).value
  }

  method Gather(get: Reader, m: Manifest, reachable: Option<set<string>>) returns (avail: map<Point, Bytes>)
    ensures avail == Gathered(get, m, reachable)
  {
    avail := map[];
    var xs := Keys(m.fragmentNodes);
    for i := 0 to |xs|
      invariant forall x :: x in avail <==> x in xs[..i] && AnswerFor(get, m, reachable, x).Some?
      invariant forall x :: x in avail ==> avail[x] == AnswerFor(get, m, reachable, x).value
    {
      assert xs[i] in xs;
      assert xs[..i + 1] == xs[..i] + [xs[i]];
      var b := AskCopies(get, m.root, xs[i], m.fragmentNodes[xs[i]], reachable);
      assert b == AnswerFor(get, m, reachable, xs[i]);
      if b.Some? {
        avail := avail[xs[i] := b.value];
      }
    }
    assert xs[..|xs|] == xs;
    GatheredIs(get, m, reachable, avail);
  }

  lemma GatheredIs(get: Reader, m: Manifest, reachable: Option<set<string>>, avail: map<Point, Bytes>)
    requires forall x :: x in avail <==> x in m.fragmentNodes && AnswerFor(get, m, reachable, x).Some?
    requires forall x :: x in avail ==> avail[x] == AnswerFor(get, m, reachable, x).value
    ensures avail == Gathered(get, m, reachable)
  {
  }

  /** Ask the copies of one fragment in turn and stop at the first answer. */
  method AskCopies(get: Reader, root: string, x: Point, nodes: seq<string>, reachable: Option<set<string>>)
    returns (b: Option<Bytes>)
    ensures b == FirstAnswer(get, root, x, nodes, reachable)
  {
    for i := 0 to |nodes|
      invariant FirstAnswer(get, root, x, nodes, reachable) == FirstAnswer(get, root, x, nodes[i..], reachable)
    {
      if Reachable(reachable, nodes[i]) {
        b := get(Slot(nodes[i], root, x));
        if b.Some? {
          return;
        }
      }
      assert nodes[i..][1..] == nodes[i + 1..];
    }
    assert nodes[|nodes|..] == [];
    b := None;
  }

  function Only(avail: map<Point, Bytes>, c: seq<Point>): map<Point, Bytes> {
    map x: Point | x in c && x in avail :: avail[x]
  }

  /** A decoder: what a set of fragments reconstructs to. */
  type Decoder = map<Point, Bytes> -> Result<Bytes>

  ghost function DecoderOf(f: Field<byte>, m: Manifest): Decoder {
    frags => Reconstructed(f, frags, m.k, m.origLen)
  }

  ghost predicate DecodesAt(decode: Decoder, f: Field<byte>, m: Manifest, frags: map<Point, Bytes>) {
    decode(frags) == Reconstructed(f, frags, m.k, m.origLen)
  }

  ghost predicate Decodes(decode: Decoder, f: Field<byte>, m: Manifest) {
    forall frags :: DecodesAt(decode, f, m, frags)
  }

  /** Selections are tried in order; the first whose reconstruction has the committed root wins. */
  ghost function Try(decode: Decoder, h: Hash, root: string, avail: map<Point, Bytes>, cs: seq<seq<Point>>, limit: nat)
    : Result<Bytes>
  {
    if cs == [] || limit == 0 then Err(IntegrityError)
    else
      var rec := decode(Only(avail, cs[0]));
      if rec.Err? || h(rec.value) == root then rec
      else Try(decode, h, root, avail, cs[1..], limit - 1)
  }

  /** The result of `fetch`, errors included. */
  ghost function Fetched(f: Field<byte>, h: Hash, m: Manifest, get: Reader, reachable: Option<set<string>>, limit: nat)
    : Result<Bytes>
  {
    var avail := Gathered(get, m, reachable);
    if |avail| < m.k then Err(LeafUnavailable)
    else Try(DecoderOf(f, m), h, m.root, avail, All(SortedPoints(avail.Keys), m.k), limit)
  }

  /** READ a leaf. */
  method Fetch(t: Tables, h: Hash, m: Manifest, get: Reader, reachable: Option<set<string>>, maxAttempts: nat)
    returns (r: Result<Bytes>)
    requires t.Valid() && IsField(t.f)
    ensures r == Fetched(t.f, h, m, get, reachable, maxAttempts)
  {
    var avail := Gather(get, m, reachable);
    if |avail| < m.k {
      return Err(LeafUnavailable);
    }
    var combos := All(SortedPoints(avail.Keys), m.k);
    r := TryAll(t, h, m, avail, combos, maxAttempts, DecoderOf(t.f, m));
  }

  lemma DropOne(cs: seq<seq<Point>>, i: nat)
    requires i < |cs|
    ensures cs[i..][0] == cs[i] && cs[i..][1..] == cs[i + 1..]
  {
  }

  lemma TryStep(decode: Decoder, h: Hash, root: string, avail: map<Point, Bytes>, cs: seq<seq<Point>>, limit: nat)
    requires cs != [] && limit > 0 && decode(Only(avail, cs[0])).Ok? && h(decode(Only(avail, cs[0])).value) != root
    ensures Try(decode, h, root, avail, cs, limit) == Try(decode, h, root, avail, cs[1..], limit - 1)
  {
  }

  method TryAll(t: Tables, h: Hash, m: Manifest, avail: map<Point, Bytes>, combos: seq<seq<Point>>, maxAttempts: nat,
                ghost decode: Decoder)
    returns (r: Result<Bytes>)
    requires t.Valid() && IsField(t.f) && Decodes(decode, t.f, m)
    ensures r == Try(decode, h, m.root, avail, combos, maxAttempts)
  {
    var attempts: nat := 0;
    ghost var left := combos;
    while attempts < |combos|
      invariant attempts <= |combos| && attempts <= maxAttempts && left == combos[attempts..]
      invariant Try(decode, h, m.root, avail, combos, maxAttempts)
                == Try(decode, h, m.root, avail, left, maxAttempts - attempts)
    {
      var combo := combos[attempts];
      DropOne(combos, attempts);
      attempts := attempts + 1;
      if attempts > maxAttempts {
        break;
      }
      var rec := Attempt(t, m, Only(avail, combo), decode);
      if rec.Err? || h(rec.value) == m.root {
        return rec;
      }
      TryStep(decode, h, m.root, avail, left, maxAttempts - attempts + 1);
      left := left[1..];
    }
    r := Err(IntegrityError);
  }

  method Attempt(t: Tables, m: Manifest, frags: map<Point, Bytes>, ghost decode: Decoder) returns (rec: Result<Bytes>)
    requires t.Valid() && IsField(t.f) && Decodes(decode, t.f, m)
    ensures rec == decode(frags)
  {
    assert DecodesAt(decode, t.f, m, frags);
    rec := Reconstruct(t, frags, m.k, m.origLen);
  }
}

/**
  The file-backed queue shared by processes: an entry is written to a temporary
  file, renamed into view, claimed by a second rename, read and unlinked.  Any
  number of producers and consumers interleave between these file operations.
 */
module DurableQueue {
  import opened Common
  import opened Sorting
  import opened Tallies

  type Entry = string

  /** Where a consumer stands inside `get_nowait`. */
  datatype Consumer = Idle | Scanning(todo: seq<int>) | Holding(id: int)

  /** The directory by file kind, what consumers returned or lost, and every put begun so far. */
  datatype State = State(issued: map<int, Entry>, failed: set<int>,
                         writing: map<int, Entry>, pending: map<int, Entry>, claimed: map<int, Entry>,
                         delivered: seq<(int, Entry)>, lost: set<int>, consumers: map<nat, Consumer>)

  /** One file operation, or the end of a process. */
  datatype Event =
    | PutStart(id: int, entry: Entry)
    | PutFail(id: int)
    | PutRename(id: int)
    | Scan(c: nat)
    | TryClaim(c: nat)
    | GiveUp(c: nat)
    | Deliver(c: nat)
    | ReadError(c: nat)
    | Crash(c: nat)

  const START := State(map[], {}, map[], map[], map[], [], {}, map[])

  function At(s: State, c: nat): Consumer {
    if c in s.consumers then s.consumers[c] else Idle
  }

  predicate Enabled(s: State, e: Event) {
    match e
    case PutStart(id, _) => id !in s.issued
    case PutFail(id) => id in s.writing
    case PutRename(id) => id in s.writing
    case Scan(c) => At(s, c).Idle?
    case TryClaim(c) => At(s, c).Scanning? && At(s, c).todo != []
    case GiveUp(c) => At(s, c).Scanning? && At(s, c).todo == []
    case Deliver(c) => At(s, c).Holding? && At(s, c).id in s.claimed
    case ReadError(c) => At(s, c).Holding? && At(s, c).id in s.claimed
    case Crash(_) => true
  }

  function Become(s: State, c: nat, now: Consumer): State {
    s.(consumers := s.consumers[c := now])
  }

  /** `os.rename` of the first file left in the snapshot: it succeeds only if nobody took the file meanwhile. */
  function Claim(s: State, c: nat): State
    requires At(s, c).Scanning? && At(s, c).todo != []
  {
    var id, rest := At(s, c).todo[0], At(s, c).todo[1..];
    if id in s.pending then
      Become(s.(pending := s.pending - {id}, claimed := s.claimed[id := s.pending[id]]), c, Holding(id))
    else Become(s, c, Scanning(rest))
  }

  function Hand(s: State, c: nat): State
    requires At(s, c).Holding? && At(s, c).id in s.claimed
  {
    var id := At(s, c).id;
    Become(s.(claimed := s.claimed - {id}, delivered := s.delivered + [(id, s.claimed[id])]), c, Idle)
  }

  /** The consumer goes away; an item it had claimed is never read again. */
  function Drop(s: State, c: nat): State {
    if At(s, c).Holding? then
      var id := At(s, c).id;
      Become(s.(claimed := s.claimed - {id}, lost := s.lost + {id}), c, Idle)
    else Become(s, c, Idle)
  }

  function Next(s: State, e: Event): State
    requires Enabled(s, e)
  {
    match e
    case PutStart(id, entry) => s.(issued := s.issued[id := entry], writing := s.writing[id := entry])
    case PutFail(id) => s.(writing := s.writing - {id}, failed := s.failed + {id})
    case PutRename(id) => s.(writing := s.writing - {id}, pending := s.pending[id := s.writing[id]])
    case Scan(c) => Become(s, c, Scanning(Sorted(s.pending.Keys)))
    case TryClaim(c) => Claim(s, c)
    case GiveUp(c) => Become(s, c, Idle)
    case Deliver(c) => Hand(s, c)
    case ReadError(c) => Drop(s, c)
    case Crash(c) => Drop(s, c)
  }

  // -------------------------------------------------------------------- runs

  predicate Legal(trace: seq<Event>)
    decreases |trace|, 0
  {
    trace != [] ==> Legal(trace[..|trace| - 1]) && Enabled(After(trace[..|trace| - 1]), trace[|trace| - 1])
  }

  function After(trace: seq<Event>): State
    requires Legal(trace)
    decreases |trace|, 1
  {
    if trace == [] then START else Next(After(trace[..|trace| - 1]), trace[|trace| - 1])
  }

  lemma {:induction false} PrefixLegal(trace: seq<Event>, n: nat)
    requires Legal(trace) && n <= |trace|
    ensures Legal(trace[..n])
    decreases |trace|
  {
    if n == |trace| {
      assert trace[..n] == trace;
    } else {
      PrefixLegal(trace[..|trace| - 1], n);
      assert trace[..|trace| - 1][..n] == trace[..n];
    }
  }

  // -------------------------------------------------------------------- what every run keeps

  function WithId(id: int): ((int, Entry)) -> bool {
    (d: (int, Entry)) => d.0 == id
  }

  function Times(d: seq<(int, Entry)>, id: int): nat {
    Tally(d, WithId(id))
  }

  /** In how many places an item is, counting every delivery. */
  function Places(s: State, id: int): nat {
    One(id in s.failed) + One(id in s.writing) + One(id in s.pending) + One(id in s.claimed) + One(id in s.lost)
      + Times(s.delivered, id)
  }

  /** Every item put is in exactly one place; nothing else is anywhere. */
  ghost predicate InOnePlace(s: State) {
    forall id :: Places(s, id) == One(id in s.issued)
  }

  /** Files and deliveries hold what was put. */
  ghost predicate Intact(s: State) {
    && (forall id :: id in s.writing ==> id in s.issued && s.writing[id] == s.issued[id])
    && (forall id :: id in s.pending ==> id in s.issued && s.pending[id] == s.issued[id])
    && (forall id :: id in s.claimed ==> id in s.issued && s.claimed[id] == s.issued[id])
    && (forall i :: 0 <= i < |s.delivered| ==>
          s.delivered[i].0 in s.issued && s.delivered[i].1 == s.issued[s.delivered[i].0])
  }

  /** Each claimed file belongs to exactly one consumer. */
  ghost predicate OneHolder(s: State) {
    && (forall c :: At(s, c).Holding? ==> At(s, c).id in s.claimed)
    && (forall c, d :: At(s, c).Holding? && At(s, d).Holding? && At(s, c).id == At(s, d).id ==> c == d)
    && (forall id :: id in s.claimed ==> exists c :: At(s, c) == Holding(id))
  }

  ghost predicate Inv(s: State) {
    InOnePlace(s) && Intact(s) && OneHolder(s)
  }

  lemma StartKeeps(s: State, id: int, entry: Entry)
    requires Inv(s) && id !in s.issued
    ensures Inv(Next(s, PutStart(id, entry)))
  {
    var t := Next(s, PutStart(id, entry));
    assert Places(s, id) == One(id in s.issued);
    assert forall x :: Places(t, x) == Places(s, x) + One(x == id);
    assert forall c :: At(t, c) == At(s, c);
  }

  lemma FinishKeeps(s: State, e: Event)
    requires Inv(s) && Enabled(s, e) && (e.PutFail? || e.PutRename?)
    ensures Inv(Next(s, e))
  {
    var t := Next(s, e);
    assert Places(s, e.id) == One(e.id in s.issued);
    assert forall x :: Places(t, x) == Places(s, x);
    assert forall c :: At(t, c) == At(s, c);
  }

  lemma BecomeKeeps(s: State, c: nat, now: Consumer)
    requires Inv(s) && !At(s, c).Holding? && !now.Holding?
    ensures Inv(Become(s, c, now))
  {
    var t := Become(s, c, now);
    assert forall id :: Places(t, id) == Places(s, id);
    assert forall d :: At(t, d) == if d == c then now else At(s, d);
  }

  lemma ClaimKeeps(s: State, c: nat)
    requires Inv(s) && At(s, c).Scanning? && At(s, c).todo != []
    ensures Inv(Claim(s, c))
  {
    var t, id := Claim(s, c), At(s, c).todo[0];
    if id in s.pending {
      assert Places(s, id) == One(id in s.issued);
      assert forall x :: Places(t, x) == Places(s, x);
      assert forall d :: At(t, d) == if d == c then Holding(id) else At(s, d);
    } else {
      BecomeKeeps(s, c, Scanning(At(s, c).todo[1..]));
    }
  }

  lemma HandKeeps(s: State, c: nat)
    requires Inv(s) && At(s, c).Holding?
    ensures At(s, c).id in s.claimed && Inv(Hand(s, c))
  {
    var t, id := Hand(s, c), At(s, c).id;
    assert t.delivered[..|s.delivered|] == s.delivered;
    assert forall x :: Places(t, x) == Places(s, x);
    assert forall d :: At(t, d) == if d == c then Idle else At(s, d);
  }

  lemma DropKeeps(s: State, c: nat)
    requires Inv(s)
    ensures Inv(Drop(s, c))
  {
    if At(s, c).Holding? {
      var t, id := Drop(s, c), At(s, c).id;
      assert Places(s, id) == One(id in s.issued);
      assert forall x :: Places(t, x) == Places(s, x);
      assert forall d :: At(t, d) == if d == c then Idle else At(s, d);
    } else {
      BecomeKeeps(s, c, Idle);
    }
  }

  lemma StepKeepsInv(s: State, e: Event)
    requires Inv(s) && Enabled(s, e)
    ensures Inv(Next(s, e))
  {
    match e
    case Scan(c) => BecomeKeeps(s, c, Scanning(Sorted(s.pending.Keys)));
    case TryClaim(c) => ClaimKeeps(s, c);
    case GiveUp(c) => BecomeKeeps(s, c, Idle);
    case Deliver(c) => HandKeeps(s, c);
    case ReadError(c) => DropKeeps(s, c);
    case Crash(c) => DropKeeps(s, c);
    case PutStart(id, entry) => StartKeeps(s, id, entry);
    case _ => FinishKeeps(s, e);
  }

  /** Over every interleaving: each item in exactly one place, unaltered, and held by at most one consumer. */
  lemma {:induction false} EveryRunKeepsItems(trace: seq<Event>)
    requires Legal(trace)
    ensures Inv(After(trace))
    decreases |trace|
  {
    if trace != [] {
      EveryRunKeepsItems(trace[..|trace| - 1]);
      StepKeepsInv(After(trace[..|trace| - 1]), trace[|trace| - 1]);
    }
  }

  ghost function Ids(d: seq<(int, Entry)>): (s: seq<int>)
    ensures |s| == |d|
  {
    seq(|d|, i requires 0 <= i < |d| => d[i].0)
  }

  lemma {:induction false} TimesPositive(d: seq<(int, Entry)>, i: nat)
    requires i < |d|
    ensures Times(d, d[i].0) >= 1
    decreases |d|
  {
    if i < |d| - 1 {
      TimesPositive(d[..|d| - 1], i);
    }
  }

  lemma {:induction false} TimesTwice(d: seq<(int, Entry)>, i: nat, j: nat)
    requires i < j < |d| && d[i].0 == d[j].0
    ensures Times(d, d[i].0) >= 2
    decreases |d|
  {
    var front := d[..|d| - 1];
    if j < |d| - 1 {
      TimesTwice(front, i, j);
    } else {
      TimesPositive(front, i);
    }
  }

  lemma OnceMeansDistinct(d: seq<(int, Entry)>, i: nat, j: nat)
    requires i < j < |d| && Times(d, d[i].0) <= 1
    ensures d[i].0 != d[j].0
  {
    if d[i].0 == d[j].0 {
      TimesTwice(d, i, j);
    }
  }

  /** No item is handed out twice, whoever asks and however the file operations interleave. */
  lemma NeverDeliveredTwice(trace: seq<Event>)
    requires Legal(trace)
    ensures NoRepeats(Ids(After(trace).delivered))
  {
    EveryRunKeepsItems(trace);
    var d := After(trace).delivered;
    forall i, j | 0 <= i < j < |d| ensures d[i].0 != d[j].0 {
      assert Places(After(trace), d[i].0) == One(d[i].0 in After(trace).issued);
      OnceMeansDistinct(d, i, j);
    }
  }

  predicate Losing(s: State, e: Event, id: int) {
    match e
    case ReadError(c) => At(s, c) == Holding(id)
    case Crash(c) => At(s, c) == Holding(id)
    case _ => false
  }

  /** An item is lost only when the consumer that claimed it crashes or cannot read it. */
  lemma {:induction false} LostOnlyAfterClaim(trace: seq<Event>, id: int) returns (i: nat)
    requires Legal(trace) && id in After(trace).lost
    ensures i < |trace| && Legal(trace[..i]) && Losing(After(trace[..i]), trace[i], id)
    decreases |trace|
  {
    var n := |trace| - 1;
    if id in After(trace[..n]).lost {
      i := LostOnlyAfterClaim(trace[..n], id);
      assert trace[..n][..i] == trace[..i];
    } else {
      i := n;
    }
  }

  // -------------------------------------------------------------------- order

  predicate ByLoneConsumer(e: Event) {
    match e
    case PutStart(_, _) => true
    case PutFail(_) => true
    case PutRename(_) => true
    case _ => e.c == 0
  }

  /** The item the lone consumer is on its way to delivering. */
  function InHand(s: State): set<int> {
    match At(s, 0)
    case Idle => {}
    case Scanning(todo) => if todo == [] then {} else {todo[0]}
    case Holding(id) => {id}
  }

  ghost function Past(s: State): set<int> {
    SetOf(Ids(s.delivered)) + s.lost
  }

  ghost function Picked(s: State): set<int> {
    Past(s) + InHand(s)
  }

  ghost predicate Below(a: set<int>, b: set<int>) {
    forall x, y :: x in a && y in b ==> x < y
  }

  ghost predicate NotAbove(a: set<int>, b: set<int>) {
    forall x, y :: x in a && y in b ==> x <= y
  }

  /** A rename is timely when nothing newer has been picked yet. */
  ghost predicate Timely(s: State, e: Event) {
    e.PutRename? ==> Below(Picked(s), {e.id})
  }

  ghost predicate LoneRun(trace: seq<Event>) {
    forall i :: 0 <= i < |trace| ==> ByLoneConsumer(trace[i])
  }

  ghost predicate TimelyAt(trace: seq<Event>, i: nat)
    requires i < |trace|
  {
    Legal(trace[..i]) && Timely(After(trace[..i]), trace[i])
  }

  ghost predicate TimelyRun(trace: seq<Event>) {
    forall i :: 0 <= i < |trace| ==> TimelyAt(trace, i)
  }

  /** Files in a lone consumer's snapshot are still there. */
  ghost predicate SnapshotHolds(s: State) {
    At(s, 0).Scanning? ==> forall i :: 0 <= i < |At(s, 0).todo| ==> At(s, 0).todo[i] in s.pending
  }

  /** Delivered in order so far, with everything still waiting newer than everything picked. */
  ghost predicate InOrder(s: State) {
    && SnapshotHolds(s)
    && Ascending(Ids(s.delivered))
    && Below(Past(s), InHand(s))
    && Below(Past(s), s.pending.Keys)
    && NotAbove(InHand(s), s.pending.Keys)
    && (At(s, 0).Holding? ==> At(s, 0).id !in s.pending)
  }

  lemma SortedStartsLowest(s: set<int>)
    ensures forall i :: 0 <= i < |Sorted(s)| ==> Sorted(s)[i] in s
    ensures s != {} ==> Sorted(s) != [] && NotAbove({Sorted(s)[0]}, s)
  {
    var todo := Sorted(s);
    forall i | 0 <= i < |todo| ensures todo[i] in s {
      assert todo[i] in todo;
    }
    forall y | y in s ensures todo != [] && todo[0] <= y {
      assert y in todo;
    }
    if s != {} {
      assert Member(s) in todo;
    }
  }

  lemma ScanInOrder(s: State)
    requires InOrder(s) && At(s, 0).Idle?
    ensures InOrder(Next(s, Scan(0)))
  {
    SortedStartsLowest(s.pending.Keys);
    var t := Next(s, Scan(0));
    assert At(t, 0) == Scanning(Sorted(s.pending.Keys));
    assert InHand(t) <= s.pending.Keys;
  }

  lemma ClaimInOrder(s: State)
    requires InOrder(s) && At(s, 0).Scanning? && At(s, 0).todo != []
    ensures InOrder(Claim(s, 0))
  {
    var t := Claim(s, 0);
    assert At(t, 0) == Holding(At(s, 0).todo[0]);
    assert InHand(t) == InHand(s);
    assert t.pending.Keys <= s.pending.Keys;
  }

  lemma AscendingAppend(d: seq<int>, id: int)
    requires Ascending(d) && Below(SetOf(d), {id})
    ensures Ascending(d + [id])
  {
    forall i | 0 <= i < |d| ensures d[i] < id {
      assert d[i] in SetOf(d);
    }
  }

  lemma HandInOrder(s: State)
    requires InOrder(s) && At(s, 0).Holding? && At(s, 0).id in s.claimed
    ensures InOrder(Hand(s, 0))
  {
    var t, id := Hand(s, 0), At(s, 0).id;
    var d := Ids(s.delivered);
    assert Ids(t.delivered) == d + [id];
    AscendingAppend(d, id);
    assert Past(t) == Past(s) + {id};
  }

  lemma DropInOrder(s: State)
    requires InOrder(s)
    ensures InOrder(Drop(s, 0))
  {
    var t := Drop(s, 0);
    assert At(t, 0) == Idle;
    if At(s, 0).Holding? {
      assert Past(t) == Past(s) + {At(s, 0).id};
    }
  }

  lemma PutInOrder(s: State, e: Event)
    requires InOrder(s) && Enabled(s, e) && Timely(s, e) && (e.PutStart? || e.PutFail? || e.PutRename?)
    ensures InOrder(Next(s, e))
  {
    var t := Next(s, e);
    assert At(t, 0) == At(s, 0) && Past(t) == Past(s) && InHand(t) == InHand(s);
    assert At(s, 0).Holding? ==> At(s, 0).id in InHand(s);
    if e.PutRename? {
      assert t.pending.Keys == s.pending.Keys + {e.id};
      assert Below(Past(s) + InHand(s), {e.id});
      assert Below(Past(s), t.pending.Keys);
      assert NotAbove(InHand(s), t.pending.Keys);
    }
  }

  lemma OrderStep(s: State, e: Event)
    requires InOrder(s) && Enabled(s, e) && ByLoneConsumer(e) && Timely(s, e)
    ensures InOrder(Next(s, e))
  {
    match e
    case Scan(_) => ScanInOrder(s);
    case TryClaim(_) => ClaimInOrder(s);
    case GiveUp(_) =>
      DropInOrder(s);
      assert Next(s, e) == Drop(s, 0);
    case Deliver(_) => HandInOrder(s);
    case ReadError(_) => DropInOrder(s);
    case Crash(_) => DropInOrder(s);
    case PutStart(_, _) => PutInOrder(s, e);
    case PutFail(_) => PutInOrder(s, e);
    case PutRename(_) => PutInOrder(s, e);
  }

  /** If every rename is timely, a lone consumer receives items in id order, losses included. */
  lemma {:induction false} TimelyRunsDeliverInOrder(trace: seq<Event>)
    requires Legal(trace) && LoneRun(trace) && TimelyRun(trace)
    ensures InOrder(After(trace)) && Ascending(Ids(After(trace).delivered))
    decreases |trace|
  {
    if trace == [] {
      assert Ids(START.delivered) == [];
    } else {
      var n := |trace| - 1;
      var front := trace[..n];
      forall i | 0 <= i < n ensures TimelyAt(front, i) {
        assert TimelyAt(trace, i);
        assert front[..i] == trace[..i];
      }
      assert TimelyAt(trace, n);
      TimelyRunsDeliverInOrder(front);
      OrderStep(After(front), trace[n]);
    }
  }

  // -------------------------------------------------------------------- the converse

  predicate Quiet(e: Event) {
    !e.ReadError? && !e.Crash?
  }

  ghost predicate QuietRun(trace: seq<Event>) {
    forall i :: 0 <= i < |trace| ==> Quiet(trace[i])
  }

  ghost predicate LoneInv(s: State) {
    SnapshotHolds(s) && s.lost == {} && forall c :: c != 0 ==> At(s, c).Idle?
  }

  lemma LoneStep(s: State, e: Event)
    requires LoneInv(s) && Enabled(s, e) && ByLoneConsumer(e) && Quiet(e)
    ensures LoneInv(Next(s, e))
  {
    var t := Next(s, e);
    SortedStartsLowest(s.pending.Keys);
    assert forall c :: c != 0 ==> At(t, c) == At(s, c);
  }

  /** `x` was, or is about to be, delivered with `id` not yet delivered before it. */
  ghost predicate Ahead(s: State, x: int, id: int) {
    var d := Ids(s.delivered);
    || (exists i :: 0 <= i < |d| && d[i] == x && id !in d[..i])
    || (x in InHand(s) && id !in d && id !in InHand(s))
  }

  /** `id` has been put for good. */
  ghost predicate Settled(s: State, id: int) {
    id in s.issued && id !in s.writing && id !in s.failed
  }

  lemma AheadStep(s: State, e: Event, x: int, id: int)
    requires LoneInv(s) && Enabled(s, e) && ByLoneConsumer(e) && Quiet(e) && Ahead(s, x, id)
    ensures Ahead(Next(s, e), x, id)
  {
    var t := Next(s, e);
    var d, f := Ids(s.delivered), Ids(t.delivered);
    if i :| 0 <= i < |d| && d[i] == x && id !in d[..i] {
      assert f[i] == x && f[..i] == d[..i];
    } else if e.Deliver? {
      assert f == d + [x];
      assert f[|d|] == x && f[..|d|] == d;
    } else {
      assert f == d;
      assert InHand(t) == InHand(s);
    }
  }

  lemma SettledStep(s: State, e: Event, id: int)
    requires Enabled(s, e) && Settled(s, id)
    ensures Settled(Next(s, e), id)
  {
  }

  lemma {:induction false} LoneRunInv(trace: seq<Event>)
    requires Legal(trace) && LoneRun(trace) && QuietRun(trace)
    ensures LoneInv(After(trace))
    decreases |trace|
  {
    if trace != [] {
      LoneRunInv(trace[..|trace| - 1]);
      LoneStep(After(trace[..|trace| - 1]), trace[|trace| - 1]);
    }
  }

  /** While `id` is being written, nobody has delivered it or picked it. */
  lemma WritingIsUnpicked(s: State, id: int)
    requires Inv(s) && LoneInv(s) && id in s.writing
    ensures id !in Ids(s.delivered) && id !in InHand(s)
  {
    assert Places(s, id) == One(id in s.issued);
    var d := s.delivered;
    forall i | 0 <= i < |d| ensures d[i].0 != id {
      if d[i].0 == id {
        TimesPositive(d, i);
      }
    }
  }

  lemma LateStarts(s: State, x: int, id: int)
    requires Inv(s) && LoneInv(s) && id in s.writing && x in Picked(s)
    ensures Ahead(Next(s, PutRename(id)), x, id) && Settled(Next(s, PutRename(id)), id)
  {
    WritingIsUnpicked(s, id);
    var t := Next(s, PutRename(id));
    assert Places(s, id) == One(id in s.issued);
    assert At(t, 0) == At(s, 0);
    var d := Ids(s.delivered);
    if x in d {
      var i :| 0 <= i < |d| && d[i] == x;
      assert Ids(t.delivered)[i] == x && id !in d[..i];
    }
  }

  /** A late item stays behind for the rest of the run. */
  lemma {:induction false} LateStaysBehind(trace: seq<Event>, i: nat, x: int)
    requires Legal(trace) && LoneRun(trace) && QuietRun(trace)
    requires i < |trace| && trace[i].PutRename? && Legal(trace[..i]) && x in Picked(After(trace[..i]))
    ensures Ahead(After(trace), x, trace[i].id) && Settled(After(trace), trace[i].id)
    decreases |trace|
  {
    var n := |trace| - 1;
    var front, id := trace[..n], trace[i].id;
    LoneRunInv(front);
    EveryRunKeepsItems(front);
    if i == n {
      LateStarts(After(front), x, id);
    } else {
      assert front[..i] == trace[..i];
      LateStaysBehind(front, i, x);
      AheadStep(After(front), trace[n], x, id);
      SettledStep(After(front), trace[n], id);
    }
  }

  /** Nothing is left to deliver. */
  ghost predicate Drained(s: State) {
    s.pending == map[] && At(s, 0).Idle?
  }

  lemma SettledIsDelivered(s: State, id: int)
    requires Inv(s) && LoneInv(s) && Drained(s) && Settled(s, id)
    ensures id in Ids(s.delivered)
  {
    assert Places(s, id) == One(id in s.issued);
    assert id !in s.claimed;
    TimesMeansIn(s.delivered, id);
  }

  lemma {:induction false} TimesMeansIn(d: seq<(int, Entry)>, id: int)
    requires Times(d, id) > 0
    ensures id in Ids(d)
    decreases |d|
  {
    var n := |d| - 1;
    if d[n].0 == id {
      assert Ids(d)[n] == id;
    } else {
      TimesMeansIn(d[..n], id);
      var i :| 0 <= i < n && Ids(d[..n])[i] == id;
      assert Ids(d)[i] == id;
    }
  }

  lemma AheadBreaksOrder(s: State, x: int, id: int)
    requires Drained(s) && Ahead(s, x, id) && id in Ids(s.delivered) && x > id
    ensures !Ascending(Ids(s.delivered))
  {
    var d := Ids(s.delivered);
    var i :| 0 <= i < |d| && d[i] == x && id !in d[..i];
    var j :| 0 <= j < |d| && d[j] == id;
    assert forall k :: 0 <= k < i ==> d[..i][k] == d[k];
  }

  lemma LateHasWitness(s: State, id: int) returns (x: int)
    requires Inv(s) && LoneInv(s) && id in s.writing && !Timely(s, PutRename(id))
    ensures x in Picked(s) && x > id
  {
    WritingIsUnpicked(s, id);
    x :| x in Picked(s) && x >= id;
  }

  lemma LateFinish(s: State, x: int, id: int)
    requires Inv(s) && LoneInv(s) && Drained(s) && Settled(s, id) && Ahead(s, x, id) && x > id
    ensures !Ascending(Ids(s.delivered))
  {
    SettledIsDelivered(s, id);
    AheadBreaksOrder(s, x, id);
  }

  lemma EnabledAt(trace: seq<Event>, i: nat)
    requires Legal(trace) && i < |trace|
    ensures Legal(trace[..i]) && Enabled(After(trace[..i]), trace[i])
  {
    PrefixLegal(trace, i + 1);
    var front := trace[..i + 1];
    assert front[..|front| - 1] == trace[..i];
  }

  lemma LateBreaksOrder(trace: seq<Event>, i: nat)
    requires Legal(trace) && LoneRun(trace) && QuietRun(trace) && Drained(After(trace))
    requires i < |trace| && !TimelyAt(trace, i)
    ensures !Ascending(Ids(After(trace).delivered))
  {
    EnabledAt(trace, i);
    LoneRunInv(trace[..i]);
    EveryRunKeepsItems(trace[..i]);
    var x := LateHasWitness(After(trace[..i]), trace[i].id);
    LateStaysBehind(trace, i, x);
    LoneRunInv(trace);
    EveryRunKeepsItems(trace);
    LateFinish(After(trace), x, trace[i].id);
  }

  /**
    What "lexical sort == arrival order" comes to for a lone consumer that drains the queue: ids
    come out in order exactly when no item is renamed into view after a newer one was picked.
   */
  lemma DrainedInOrderIffTimely(trace: seq<Event>)
    requires Legal(trace) && LoneRun(trace) && QuietRun(trace) && Drained(After(trace))
    ensures Ascending(Ids(After(trace).delivered)) <==> TimelyRun(trace)
  {
    if TimelyRun(trace) {
      TimelyRunsDeliverInOrder(trace);
    } else {
      var i :| 0 <= i < |trace| && !TimelyAt(trace, i);
      LateBreaksOrder(trace, i);
    }
  }
}

/** What every run of the session-quarantine protocol keeps. */
module SessionRuns {
  import opened Common
  import opened SessionQuarantine
  import opened Tallies

  function WithId(id: string): Event -> bool {
    (e: Event) => e.id == id
  }

  function PendingWith(id: string): Orphan -> bool {
    (o: Orphan) => !o.reconciled && o.event.id == id
  }

  function QuarantinedWith(id: string): Orphan -> bool {
    (o: Orphan) => o.reconciled && o.recovered.None? && o.event.id == id
  }

  function SettledWith(id: string): Orphan -> bool {
    (o: Orphan) => o.reconciled && o.event.id == id
  }

  function ReceiptFor(id: string): Receipt -> bool {
    (r: Receipt) => r.eventId == id
  }

  /** How many events of a kind are attached, over all sessions. */
  function Attached(sessions: seq<Node>, f: Event -> bool): nat {
    if sessions == [] then 0
    else Attached(sessions[..|sessions| - 1], f) + Tally(sessions[|sessions| - 1].events, f)
  }

  function Places(s: State, id: string): nat {
    Attached(s.sessions, WithId(id)) + Tally(s.orphans, PendingWith(id)) + Tally(s.orphans, QuarantinedWith(id))
  }

  /** Every received event is attached once, pending, or quarantined: exactly one of these. */
  ghost predicate InOnePlace(s: State, received: set<string>) {
    forall id :: Places(s, id) == One(id in received)
  }

  ghost predicate Orderly(s: State, received: set<string>) {
    && s.counts.Keys <= received
    && (forall i :: 0 <= i < |s.orphans| ==> s.orphans[i].event.id in received)
    && (forall i, j :: 0 <= i < j < |s.orphans| ==> s.orphans[i].event.id != s.orphans[j].event.id)
    && (forall i :: 0 <= i < |s.orphans| && !s.orphans[i].reconciled ==> s.orphans[i].recovered.None?)
  }

  /** One receipt per settled orphan, none for the others. */
  ghost predicate OneReceiptEach(s: State) {
    forall id :: Tally(s.receipts, ReceiptFor(id)) == Tally(s.orphans, SettledWith(id))
  }

  /** What a receipt says of the orphan it was issued for. */
  ghost predicate Certifies(s: State, r: Receipt, o: Orphan) {
    && o.reconciled && o.event.id == r.eventId && o.recovered == r.recovered
    && r.attempts == Count(s.counts, r.eventId)
    && (r.status == Quarantined <==> o.recovered.None?)
    && (r.status == Quarantined ==> r.at - o.receivedAt >= s.ttl)
  }

  ghost predicate Certified(s: State, r: Receipt) {
    exists i :: 0 <= i < |s.orphans| && Certifies(s, r, s.orphans[i])
  }

  ghost predicate TrueReceipts(s: State) {
    forall k :: 0 <= k < |s.receipts| ==> Certified(s, s.receipts[k])
  }

  ghost predicate Inv(s: State, received: set<string>) {
    InOnePlace(s, received) && Orderly(s, received) && OneReceiptEach(s) && TrueReceipts(s)
  }

  // -------------------------------------------------------------------- counting lemmas

  lemma {:induction false} AttachCounts(sessions: seq<Node>, k: nat, e: Event, f: Event -> bool)
    requires k < |sessions|
    ensures Attached(Attach(sessions, k, e), f) == Attached(sessions, f) + One(f(e))
    decreases |sessions|
  {
    var n := |sessions| - 1;
    var after := Attach(sessions, k, e);
    if k == n {
      assert after[..n] == sessions[..n];
      TallyAppend(sessions[n].events, e, f);
    } else {
      AttachCounts(sessions[..n], k, e, f);
      assert after[..n] == Attach(sessions[..n], k, e);
    }
  }

  /** A pending orphan has no receipt yet. */
  lemma PendingHasNoReceipt(s: State, received: set<string>, i: nat)
    requires Orderly(s, received) && OneReceiptEach(s) && i < |s.orphans| && !s.orphans[i].reconciled
    ensures forall k :: 0 <= k < |s.receipts| ==> s.receipts[k].eventId != s.orphans[i].event.id
  {
    var id := s.orphans[i].event.id;
    TallyZero(s.orphans, SettledWith(id));
    TallyZero(s.receipts, ReceiptFor(id));
    assert Tally(s.receipts, ReceiptFor(id)) == Tally(s.orphans, SettledWith(id));
    forall k | 0 <= k < |s.receipts| ensures s.receipts[k].eventId != id {
      assert !ReceiptFor(id)(s.receipts[k]);
    }
  }

  // -------------------------------------------------------------------- one orphan in a pass

  function CountUp(s: State, id: string): State {
    s.(counts := s.counts[id := Count(s.counts, id) + 1])
  }

  lemma CountUpKeeps(s: State, received: set<string>, i: nat)
    requires Inv(s, received) && i < |s.orphans| && !s.orphans[i].reconciled
    ensures Inv(CountUp(s, s.orphans[i].event.id), received)
  {
    var t := CountUp(s, s.orphans[i].event.id);
    PendingHasNoReceipt(s, received, i);
    assert forall id :: Places(t, id) == Places(s, id);
    forall k | 0 <= k < |t.receipts| ensures Certified(t, t.receipts[k]) {
      assert Certified(s, s.receipts[k]);
      var j :| 0 <= j < |s.orphans| && Certifies(s, s.receipts[k], s.orphans[j]);
      assert Certifies(t, t.receipts[k], t.orphans[j]);
    }
  }

  /** Settling a pending orphan with a receipt for it. */
  function Settle(s: State, i: nat, o: Orphan, r: Receipt): State
    requires i < |s.orphans|
  {
    s.(orphans := s.orphans[i := o], receipts := s.receipts + [r])
  }

  lemma SettleReceipts(s: State, received: set<string>, i: nat, o: Orphan, r: Receipt)
    requires Orderly(s, received) && OneReceiptEach(s) && TrueReceipts(s)
    requires i < |s.orphans| && !s.orphans[i].reconciled && o.event == s.orphans[i].event && Certifies(s, r, o)
    ensures OneReceiptEach(Settle(s, i, o, r)) && TrueReceipts(Settle(s, i, o, r))
  {
    var t := Settle(s, i, o, r);
    forall id ensures Tally(t.receipts, ReceiptFor(id)) == Tally(t.orphans, SettledWith(id)) {
      assert Tally(s.receipts, ReceiptFor(id)) == Tally(s.orphans, SettledWith(id));
      TallyAppend(s.receipts, r, ReceiptFor(id));
      TallyUpdate(s.orphans, i, o, SettledWith(id));
    }
    PendingHasNoReceipt(s, received, i);
    forall k | 0 <= k < |t.receipts| ensures Certified(t, t.receipts[k]) {
      if k < |s.receipts| {
        assert Certified(s, s.receipts[k]);
        var j :| 0 <= j < |s.orphans| && Certifies(s, s.receipts[k], s.orphans[j]);
        assert t.orphans[j] == s.orphans[j];
        assert Certifies(t, t.receipts[k], t.orphans[j]);
      } else {
        assert Certifies(t, t.receipts[k], t.orphans[i]);
      }
    }
  }

  lemma RecoverKeeps(s: State, received: set<string>, i: nat, k: nat, now: real)
    requires Inv(s, received) && i < |s.orphans| && k < |s.sessions| && !s.orphans[i].reconciled
    ensures Inv(Recover(s, i, k, now), received)
  {
    var t, e := Recover(s, i, k, now), s.orphans[i].event;
    SettleReceipts(s, received, i, t.orphans[i], t.receipts[|s.receipts|]);
    forall id ensures Places(t, id) == One(id in received) {
      assert Places(s, id) == One(id in received);
      AttachCounts(s.sessions, k, e, WithId(id));
      TallyUpdate(s.orphans, i, t.orphans[i], PendingWith(id));
      TallyUpdate(s.orphans, i, t.orphans[i], QuarantinedWith(id));
    }
  }

  lemma QuarantineKeeps(s: State, received: set<string>, i: nat, now: real)
    requires Inv(s, received) && i < |s.orphans| && !s.orphans[i].reconciled && now - s.orphans[i].receivedAt >= s.ttl
    ensures Inv(Quarantine(s, i, now), received)
  {
    var t := Quarantine(s, i, now);
    SettleReceipts(s, received, i, t.orphans[i], t.receipts[|s.receipts|]);
    forall id ensures Places(t, id) == One(id in received) {
      assert Places(s, id) == One(id in received);
      TallyUpdate(s.orphans, i, t.orphans[i], PendingWith(id));
      TallyUpdate(s.orphans, i, t.orphans[i], QuarantinedWith(id));
    }
  }

  // -------------------------------------------------------------------- a whole pass

  ghost predicate Overdue(s: State, i: nat, now: real) {
    i < |s.orphans| && !s.orphans[i].reconciled && now - s.orphans[i].receivedAt >= s.ttl
  }

  /** The orphans set aside as too old are still pending, and each is set aside once. */
  ghost predicate DueOk(s: State, due: seq<nat>, n: nat, now: real) {
    && (forall k :: 0 <= k < |due| ==> due[k] < n && Overdue(s, due[k], now))
    && (forall k, l :: 0 <= k < l < |due| ==> due[k] < due[l])
  }

  /** Each overdue orphan already visited is set aside. */
  ghost predicate Dealt(s: State, due: seq<nat>, n: nat, now: real) {
    forall i :: 0 <= i < n && Overdue(s, i, now) ==> i in due
  }

  ghost predicate PassOk(p: Pass, received: set<string>, n: nat, now: real) {
    Inv(p.s, received) && DueOk(p.s, p.due, n, now) && Dealt(p.s, p.due, n, now)
  }

  lemma VisitKeepsInv(p: Pass, received: set<string>, i: nat, now: real)
    requires i < |p.s.orphans| && Inv(p.s, received)
    ensures Inv(Visit(p, i, now).s, received)
  {
    var o := p.s.orphans[i];
    VisitIs(p, i, now);
    if !o.reconciled {
      CountUpKeeps(p.s, received, i);
      var s := CountUp(p.s, o.event.id);
      var k := Match(s.sessions, o.event);
      if k.Some? {
        RecoverKeeps(s, received, i, k.value, now);
      }
    }
  }

  /** A visit to a pending orphan counts it up and recovers it if a session matches. */
  lemma VisitIs(p: Pass, i: nat, now: real)
    requires i < |p.s.orphans|
    ensures var o := p.s.orphans[i]; var s := CountUp(p.s, o.event.id); var k := Match(s.sessions, o.event);
      if o.reconciled then Visit(p, i, now).s == p.s
      else if k.Some? then k.value < |s.sessions| && Visit(p, i, now).s == Recover(s, i, k.value, now)
      else Visit(p, i, now).s == s
  {
    var s := CountUp(p.s, p.s.orphans[i].event.id);
    MatchInRange(s.sessions, p.s.orphans[i].event);
  }

  /** At most orphan i differs. */
  ghost predicate OnlyAt(s: State, t: State, i: nat) {
    && t.ttl == s.ttl && |t.orphans| == |s.orphans|
    && forall j :: 0 <= j < |s.orphans| && j != i ==> t.orphans[j] == s.orphans[j]
  }

  /** A visit changes no orphan but the one visited, and sets it aside if it is left overdue. */
  lemma VisitFrame(p: Pass, i: nat, now: real)
    requires i < |p.s.orphans|
    ensures OnlyAt(p.s, Visit(p, i, now).s, i)
    ensures Visit(p, i, now).due == Extended(p.due, Visit(p, i, now).s, i, now)
  {
  }

  ghost function Extended(due: seq<nat>, t: State, i: nat, now: real): seq<nat> {
    if Overdue(t, i, now) then due + [i] else due
  }

  lemma SameOverdue(s: State, t: State, i: nat, j: nat, now: real)
    requires OnlyAt(s, t, i) && j != i
    ensures Overdue(s, j, now) <==> Overdue(t, j, now)
  {
  }

  lemma DueOkGrows(s: State, t: State, due: seq<nat>, i: nat, now: real)
    requires OnlyAt(s, t, i) && DueOk(s, due, i, now)
    ensures DueOk(t, Extended(due, t, i, now), i + 1, now)
  {
    forall k | 0 <= k < |due| ensures Overdue(t, due[k], now) {
      SameOverdue(s, t, i, due[k], now);
    }
  }

  lemma DealtGrows(s: State, t: State, due: seq<nat>, i: nat, now: real)
    requires OnlyAt(s, t, i) && Dealt(s, due, i, now)
    ensures Dealt(t, Extended(due, t, i, now), i + 1, now)
  {
    forall j | 0 <= j < i + 1 && Overdue(t, j, now) ensures j in Extended(due, t, i, now) {
      if j < i {
        SameOverdue(s, t, i, j, now);
        assert j in due;
      } else {
        assert (due + [i])[|due|] == i;
      }
    }
  }

  lemma VisitKeeps(p: Pass, received: set<string>, i: nat, now: real)
    requires i < |p.s.orphans| && PassOk(p, received, i, now)
    ensures PassOk(Visit(p, i, now), received, i + 1, now)
  {
    VisitKeepsInv(p, received, i, now);
    VisitFrame(p, i, now);
    DueOkGrows(p.s, Visit(p, i, now).s, p.due, i, now);
    DealtGrows(p.s, Visit(p, i, now).s, p.due, i, now);
  }

  lemma {:induction false} VisitAllKeeps(s: State, received: set<string>, n: nat, now: real)
    requires Inv(s, received) && n <= |s.orphans|
    ensures PassOk(VisitAll(s, n, now), received, n, now)
    decreases n
  {
    if n > 0 {
      var m: nat := n - 1;
      VisitAllKeeps(s, received, m, now);
      VisitKeeps(VisitAll(s, m, now), received, m, now);
    }
  }

  lemma {:induction false} QuarantineAllFrame(s: State, due: seq<nat>, now: real)
    ensures var t := QuarantineAll(s, due, now);
      && |t.orphans| == |s.orphans| && t.ttl == s.ttl
      && forall i :: 0 <= i < |s.orphans| ==>
           t.orphans[i] == (if i in due then s.orphans[i].(reconciled := true) else s.orphans[i])
    decreases |due|
  {
    if due != [] {
      var m := |due| - 1;
      QuarantineAllFrame(s, due[..m], now);
      assert forall i :: i in due <==> i in due[..m] || i == due[m];
    }
  }

  lemma DueOkFront(s: State, due: seq<nat>, n: nat, now: real)
    requires due != [] && DueOk(s, due, n, now)
    ensures var m := |due| - 1; DueOk(s, due[..m], n, now) && Overdue(s, due[m], now) && due[m] !in due[..m]
  {
  }

  lemma {:induction false} QuarantineAllKeeps(s: State, received: set<string>, due: seq<nat>, n: nat, now: real)
    requires Inv(s, received) && DueOk(s, due, n, now)
    ensures Inv(QuarantineAll(s, due, now), received)
    decreases |due|
  {
    if due != [] {
      var m := |due| - 1;
      DueOkFront(s, due, n, now);
      QuarantineAllKeeps(s, received, due[..m], n, now);
      QuarantineAllFrame(s, due[..m], now);
      QuarantineKeeps(QuarantineAll(s, due[..m], now), received, due[m], now);
    }
  }

  /** A pass keeps the invariant. */
  lemma ReconcileKeeps(s: State, received: set<string>, now: real)
    requires Inv(s, received)
    ensures Inv(Reconciled(s, now), received)
  {
    var n := |s.orphans|;
    VisitAllKeeps(s, received, n, now);
    var p := VisitAll(s, n, now);
    QuarantineAllKeeps(p.s, received, p.due, n, now);
  }

  /** A pass leaves no overdue orphan pending. */
  lemma NoneOverdueAfterPass(s: State, received: set<string>, now: real, i: nat)
    requires Inv(s, received)
    ensures !Overdue(Reconciled(s, now), i, now)
  {
    var n := |s.orphans|;
    VisitAllKeeps(s, received, n, now);
    var p := VisitAll(s, n, now);
    QuarantineAllFrame(p.s, p.due, now);
    if i < n && i !in p.due {
      assert !Overdue(p.s, i, now);
    }
  }

  lemma {:induction false} VisitAllFrame(s: State, n: nat, now: real)
    requires n <= |s.orphans|
    ensures var p := VisitAll(s, n, now);
      p.s.ttl == s.ttl && forall i :: n <= i < |s.orphans| ==> p.s.orphans[i] == s.orphans[i]
    decreases n
  {
    if n > 0 {
      VisitAllFrame(s, n - 1, now);
    }
  }

  /** A pass adds one attempt to exactly the orphans pending when it starts. */
  lemma VisitCounts(p: Pass, i: nat, now: real, id: string)
    requires i < |p.s.orphans|
    ensures Count(Visit(p, i, now).s.counts, id) == Count(p.s.counts, id) + One(PendingWith(id)(p.s.orphans[i]))
  {
  }

  lemma {:induction false} VisitAllCounts(s: State, n: nat, now: real, id: string)
    requires n <= |s.orphans|
    ensures Count(VisitAll(s, n, now).s.counts, id) == Count(s.counts, id) + Tally(s.orphans[..n], PendingWith(id))
    decreases n
  {
    if n > 0 {
      var m: nat := n - 1;
      VisitAllCounts(s, m, now, id);
      VisitAllFrame(s, m, now);
      VisitCounts(VisitAll(s, m, now), m, now, id);
      TallyNext(s.orphans, m, PendingWith(id));
    }
  }

  lemma {:induction false} QuarantineAllCounts(s: State, due: seq<nat>, now: real)
    ensures QuarantineAll(s, due, now).counts == s.counts
    decreases |due|
  {
    if due != [] {
      QuarantineAllCounts(s, due[..|due| - 1], now);
    }
  }

  lemma ReconcileCounts(s: State, now: real, id: string)
    ensures Count(Reconciled(s, now).counts, id) == Count(s.counts, id) + Tally(s.orphans, PendingWith(id))
  {
    VisitAllCounts(s, |s.orphans|, now, id);
    assert s.orphans[..|s.orphans|] == s.orphans;
    var p := VisitAll(s, |s.orphans|, now);
    QuarantineAllCounts(p.s, p.due, now);
  }

  // -------------------------------------------------------------------- events and sessions

  lemma ReceiptsCarry(s: State, t: State)
    requires TrueReceipts(s) && t.receipts == s.receipts && t.counts == s.counts && t.ttl == s.ttl
    requires s.orphans <= t.orphans
    ensures TrueReceipts(t)
  {
    forall k | 0 <= k < |t.receipts| ensures Certified(t, t.receipts[k]) {
      assert Certified(s, s.receipts[k]);
      var j :| 0 <= j < |s.orphans| && Certifies(s, s.receipts[k], s.orphans[j]);
      assert Certifies(t, t.receipts[k], t.orphans[j]);
    }
  }

  lemma RegisterKeeps(s: State, received: set<string>, id: string)
    requires Inv(s, received)
    ensures Inv(Registered(s, id), received)
  {
    var t := Registered(s, id);
    if !Knows(s.sessions, id) {
      assert t.sessions[..|s.sessions|] == s.sessions;
      assert forall x :: Places(t, x) == Places(s, x);
      ReceiptsCarry(s, t);
    }
  }

  lemma AttachEventKeeps(s: State, received: set<string>, k: nat, e: Event)
    requires Inv(s, received) && e.id !in received && k < |s.sessions|
    ensures Inv(s.(sessions := Attach(s.sessions, k, e)), received + {e.id})
  {
    var t := s.(sessions := Attach(s.sessions, k, e));
    forall id ensures Places(t, id) == One(id in received + {e.id}) {
      assert Places(s, id) == One(id in received);
      AttachCounts(s.sessions, k, e, WithId(id));
    }
    ReceiptsCarry(s, t);
  }

  lemma OrphanPlaces(s: State, received: set<string>, o: Orphan)
    requires InOnePlace(s, received) && o.event.id !in received && !o.reconciled
    ensures InOnePlace(s.(orphans := s.orphans + [o]), received + {o.event.id})
  {
    var t := s.(orphans := s.orphans + [o]);
    forall id ensures Places(t, id) == One(id in received + {o.event.id}) {
      assert Places(s, id) == One(id in received);
      TallyAppend(s.orphans, o, PendingWith(id));
      TallyAppend(s.orphans, o, QuarantinedWith(id));
    }
  }

  lemma OrphanReceipts(s: State, o: Orphan)
    requires OneReceiptEach(s) && TrueReceipts(s) && !o.reconciled
    ensures OneReceiptEach(s.(orphans := s.orphans + [o])) && TrueReceipts(s.(orphans := s.orphans + [o]))
  {
    var t := s.(orphans := s.orphans + [o]);
    forall id ensures Tally(t.receipts, ReceiptFor(id)) == Tally(t.orphans, SettledWith(id)) {
      assert Tally(s.receipts, ReceiptFor(id)) == Tally(s.orphans, SettledWith(id));
      TallyAppend(s.orphans, o, SettledWith(id));
    }
    ReceiptsCarry(s, t);
  }

  lemma OrphanEventKeeps(s: State, received: set<string>, o: Orphan)
    requires Inv(s, received) && o.event.id !in received && !o.reconciled && o.recovered.None?
    ensures Inv(s.(orphans := s.orphans + [o]), received + {o.event.id})
  {
    OrphanPlaces(s, received, o);
    OrphanReceipts(s, o);
  }

  lemma ReceiveKeeps(s: State, received: set<string>, e: Event, now: real)
    requires Inv(s, received) && e.id !in received
    ensures Inv(Received(s, e, now), received + {e.id})
  {
    var k := Position(s.sessions, e.sessionId, 0);
    if e.sessionId != "" && k < |s.sessions| {
      AttachEventKeeps(s, received, k, e);
    } else {
      assert Slot(s.orphans, e.id, 0) == |s.orphans|;
      OrphanEventKeeps(s, received, Orphan(e, now, false, None));
    }
  }

  // -------------------------------------------------------------------- runs

  datatype Op = Register(id: string) | Receive(event: Event, at: real) | Reconcile(now: real)

  function Next(s: State, op: Op): State {
    match op
    case Register(id) => Registered(s, id)
    case Receive(e, at) => Received(s, e, at)
    case Reconcile(now) => Reconciled(s, now)
  }

  function After(ttl: real, ops: seq<Op>): State {
    if ops == [] then State(ttl, [], [], [], map[]) else Next(After(ttl, ops[..|ops| - 1]), ops[|ops| - 1])
  }

  /** The ids of the events received. */
  function Ids(ops: seq<Op>): set<string> {
    if ops == [] then {}
    else
      var last := ops[|ops| - 1];
      Ids(ops[..|ops| - 1]) + (if last.Receive? then {last.event.id} else {})
  }

  ghost predicate DistinctIds(ops: seq<Op>) {
    ops != [] ==>
      && DistinctIds(ops[..|ops| - 1])
      && (ops[|ops| - 1].Receive? ==> ops[|ops| - 1].event.id !in Ids(ops[..|ops| - 1]))
  }

  lemma EmptyKeeps(ttl: real)
    ensures Inv(State(ttl, [], [], [], map[]), {})
  {
  }

  /** Every event is in exactly one place and every settled orphan has its one true receipt, after any run. */
  lemma {:induction false} EveryRunKeepsInv(ttl: real, ops: seq<Op>)
    requires DistinctIds(ops)
    ensures Inv(After(ttl, ops), Ids(ops))
    decreases |ops|
  {
    if ops == [] {
      EmptyKeeps(ttl);
    } else {
      var n := |ops| - 1;
      EveryRunKeepsInv(ttl, ops[..n]);
      var s, received := After(ttl, ops[..n]), Ids(ops[..n]);
      match ops[n]
      case Register(id) => RegisterKeeps(s, received, id);
      case Receive(e, at) => ReceiveKeeps(s, received, e, at);
      case Reconcile(now) => ReconcileKeeps(s, received, now);
    }
  }

  /** In how many passes of a run an event was waiting when the pass began. */
  function PassesWaiting(ttl: real, ops: seq<Op>, id: string): nat {
    if ops == [] then 0
    else
      var front := ops[..|ops| - 1];
      PassesWaiting(ttl, front, id)
      + (if ops[|ops| - 1].Reconcile? then Tally(After(ttl, front).orphans, PendingWith(id)) else 0)
  }

  lemma {:induction false} CountsArePasses(ttl: real, ops: seq<Op>, id: string)
    ensures Count(After(ttl, ops).counts, id) == PassesWaiting(ttl, ops, id)
    decreases |ops|
  {
    if ops != [] {
      var n := |ops| - 1;
      CountsArePasses(ttl, ops[..n], id);
      if ops[n].Reconcile? {
        ReconcileCounts(After(ttl, ops[..n]), ops[n].now, id);
      }
    }
  }

  /**
    A receipt counts the passes its event was waiting for, and none is a quarantine before the time to live
    is over.
   */
  lemma ReceiptsTellTheTruth(ttl: real, ops: seq<Op>, k: nat)
    requires DistinctIds(ops) && k < |After(ttl, ops).receipts|
    ensures var s := After(ttl, ops); var r := s.receipts[k];
      && Tally(s.receipts, ReceiptFor(r.eventId)) == 1
      && r.attempts == PassesWaiting(ttl, ops, r.eventId)
      && Certified(s, r)
  {
    EveryRunKeepsInv(ttl, ops);
    var s := After(ttl, ops);
    var r := s.receipts[k];
    CountsArePasses(ttl, ops, r.eventId);
    assert Certified(s, r);
    var i :| 0 <= i < |s.orphans| && Certifies(s, r, s.orphans[i]);
    TallyAtMostOne(s.orphans, SettledWith(r.eventId), i);
  }
}

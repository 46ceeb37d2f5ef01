/**
  What becomes of each received event, ids repeated or not: an account of every
  copy, and exactly when one is overwritten.
 */
module SessionEvents {
  import opened Common
  import opened SessionQuarantine
  import opened SessionRuns
  import opened Tallies

  /** Queued and not attached: pending or quarantined. */
  function UnattachedCopy(e: Event): Orphan -> bool {
    (o: Orphan) => o.recovered.None? && o.event == e
  }

  /** How many copies of an event the protocol holds: attached, pending or quarantined. */
  function Copies(s: State, e: Event): nat {
    Attached(s.sessions, Equals(e)) + Tally(s.orphans, UnattachedCopy(e))
  }

  function Receives(e: Event): Op -> bool {
    (op: Op) => op.Receive? && op.event == e
  }

  predicate Attaches(s: State, e: Event) {
    e.sessionId != "" && Knows(s.sessions, e.sessionId)
  }

  /** The op is a receive that attaches nowhere and reuses the id of orphan i, which is pending or quarantined. */
  predicate Overwrites(s: State, op: Op, i: nat) {
    && op.Receive? && !Attaches(s, op.event)
    && i < |s.orphans| && i == Slot(s.orphans, op.event.id, 0) && s.orphans[i].recovered.None?
  }

  /** How many copies of e one op overwrites. */
  function Lost(s: State, op: Op, e: Event): nat {
    if op.Receive? then
      var i := Slot(s.orphans, op.event.id, 0);
      One(Overwrites(s, op, i) && s.orphans[i].event == e)
    else 0
  }

  /** An orphan still pending has not been attached. */
  ghost predicate Sound(s: State) {
    forall i :: 0 <= i < |s.orphans| && !s.orphans[i].reconciled ==> s.orphans[i].recovered.None?
  }

  // -------------------------------------------------------------------- a pass moves copies

  lemma VisitCopies(p: Pass, i: nat, now: real, e: Event)
    requires i < |p.s.orphans| && Sound(p.s)
    ensures Sound(Visit(p, i, now).s) && Copies(Visit(p, i, now).s, e) == Copies(p.s, e)
  {
    var o := p.s.orphans[i];
    if !o.reconciled {
      var s := CountUp(p.s, o.event.id);
      var k := Match(s.sessions, o.event);
      MatchInRange(s.sessions, o.event);
      if k.Some? {
        AttachCounts(s.sessions, k.value, o.event, Equals(e));
        TallyUpdate(s.orphans, i, o.(reconciled := true, recovered := Some(s.sessions[k.value].id)), UnattachedCopy(e));
      }
    }
  }

  lemma {:induction false} VisitAllCopies(s: State, n: nat, now: real, e: Event)
    requires n <= |s.orphans| && Sound(s)
    ensures Sound(VisitAll(s, n, now).s) && Copies(VisitAll(s, n, now).s, e) == Copies(s, e)
    decreases n
  {
    if n > 0 {
      var m: nat := n - 1;
      VisitAllCopies(s, m, now, e);
      VisitCopies(VisitAll(s, m, now), m, now, e);
    }
  }

  lemma {:induction false} QuarantineAllCopies(s: State, due: seq<nat>, now: real, e: Event)
    requires Sound(s)
    ensures Sound(QuarantineAll(s, due, now)) && Copies(QuarantineAll(s, due, now), e) == Copies(s, e)
    decreases |due|
  {
    if due != [] {
      var m := |due| - 1;
      QuarantineAllCopies(s, due[..m], now, e);
      var t, i := QuarantineAll(s, due[..m], now), due[m];
      if i < |t.orphans| {
        TallyUpdate(t.orphans, i, t.orphans[i].(reconciled := true), UnattachedCopy(e));
      }
    }
  }

  // -------------------------------------------------------------------- one op

  lemma ReceiveCopies(s: State, x: Event, at: real, e: Event)
    requires Sound(s)
    ensures Sound(Received(s, x, at))
    ensures Copies(Received(s, x, at), e) + Lost(s, Receive(x, at), e) == Copies(s, e) + One(x == e)
  {
    var k := Position(s.sessions, x.sessionId, 0);
    if x.sessionId != "" && k < |s.sessions| {
      AttachCounts(s.sessions, k, x, Equals(e));
    } else {
      EnqueueCopies(s.orphans, Orphan(x, at, false, None), e);
    }
  }

  lemma EnqueueCopies(orphans: seq<Orphan>, o: Orphan, e: Event)
    requires o.recovered.None?
    ensures var i := Slot(orphans, o.event.id, 0);
      Tally(Enqueue(orphans, o), UnattachedCopy(e)) + One(i < |orphans| && UnattachedCopy(e)(orphans[i]))
      == Tally(orphans, UnattachedCopy(e)) + One(o.event == e)
  {
    var i := Slot(orphans, o.event.id, 0);
    if i < |orphans| {
      TallyUpdate(orphans, i, o, UnattachedCopy(e));
    } else {
      TallyAppend(orphans, o, UnattachedCopy(e));
    }
  }

  lemma RegisterCopies(s: State, id: string, e: Event)
    ensures Copies(Registered(s, id), e) == Copies(s, e)
  {
    if !Knows(s.sessions, id) {
      var t := Registered(s, id);
      assert t.sessions[..|s.sessions|] == s.sessions;
    }
  }

  lemma StepCopies(s: State, op: Op, e: Event)
    requires Sound(s)
    ensures Sound(Next(s, op))
    ensures Copies(Next(s, op), e) + Lost(s, op, e) == Copies(s, e) + One(Receives(e)(op))
  {
    match op
    case Register(id) => RegisterCopies(s, id, e);
    case Receive(x, at) => ReceiveCopies(s, x, at, e);
    case Reconcile(now) =>
      VisitAllCopies(s, |s.orphans|, now, e);
      var p := VisitAll(s, |s.orphans|, now);
      QuarantineAllCopies(p.s, p.due, now, e);
  }

  // -------------------------------------------------------------------- the account of a run

  /** How many copies of e a run overwrites. */
  function LostIn(ttl: real, ops: seq<Op>, e: Event): nat {
    if ops == [] then 0
    else LostIn(ttl, ops[..|ops| - 1], e) + Lost(After(ttl, ops[..|ops| - 1]), ops[|ops| - 1], e)
  }

  /** Every copy received is still held or was overwritten, for every event and every run. */
  lemma {:induction false} EveryCopyAccounted(ttl: real, ops: seq<Op>, e: Event)
    ensures Sound(After(ttl, ops))
    ensures Copies(After(ttl, ops), e) + LostIn(ttl, ops, e) == Tally(ops, Receives(e))
    decreases |ops|
  {
    if ops != [] {
      var n := |ops| - 1;
      EveryCopyAccounted(ttl, ops[..n], e);
      StepCopies(After(ttl, ops[..n]), ops[n], e);
    }
  }

  /** Step n of the run overwrites an orphan. */
  ghost predicate OverwritesAt(ttl: real, ops: seq<Op>, n: nat)
    requires n < |ops|
  {
    ops[n].Receive? && Overwrites(After(ttl, ops[..n]), ops[n], Slot(After(ttl, ops[..n]).orphans, ops[n].event.id, 0))
  }

  lemma {:induction false} LostInMeans(ttl: real, ops: seq<Op>, e: Event)
    requires LostIn(ttl, ops, e) > 0
    ensures exists n :: 0 <= n < |ops| && OverwritesAt(ttl, ops, n)
    decreases |ops|
  {
    var n := |ops| - 1;
    if LostIn(ttl, ops[..n], e) > 0 {
      LostInMeans(ttl, ops[..n], e);
      var k :| 0 <= k < n && OverwritesAt(ttl, ops[..n], k);
      assert ops[..n][..k] == ops[..k];
      assert OverwritesAt(ttl, ops, k);
    } else {
      assert OverwritesAt(ttl, ops, n);
    }
  }

  lemma {:induction false} OverwriteCounts(ttl: real, ops: seq<Op>, n: nat)
    requires n < |ops| && OverwritesAt(ttl, ops, n)
    ensures var s := After(ttl, ops[..n]); LostIn(ttl, ops, s.orphans[Slot(s.orphans, ops[n].event.id, 0)].event) > 0
    decreases |ops|
  {
    var m := |ops| - 1;
    if n < m {
      assert ops[..m][..n] == ops[..n];
      assert OverwritesAt(ttl, ops[..m], n);
      OverwriteCounts(ttl, ops[..m], n);
    }
  }

  /** Everything received is still attached, pending or quarantined, as often as it was received. */
  ghost predicate NothingLost(ttl: real, ops: seq<Op>) {
    forall e :: Copies(After(ttl, ops), e) == Tally(ops, Receives(e))
  }

  /**
    Nothing received is lost exactly when no receive that attaches nowhere reuses the id of an
    orphan that is pending or quarantined.
   */
  lemma NothingLostIff(ttl: real, ops: seq<Op>)
    ensures NothingLost(ttl, ops) <==> forall n :: 0 <= n < |ops| ==> !OverwritesAt(ttl, ops, n)
  {
    if n :| 0 <= n < |ops| && OverwritesAt(ttl, ops, n) {
      OverwriteCounts(ttl, ops, n);
      var s := After(ttl, ops[..n]);
      var e := s.orphans[Slot(s.orphans, ops[n].event.id, 0)].event;
      EveryCopyAccounted(ttl, ops, e);
      assert Copies(After(ttl, ops), e) != Tally(ops, Receives(e));
    } else {
      forall e ensures Copies(After(ttl, ops), e) == Tally(ops, Receives(e)) {
        EveryCopyAccounted(ttl, ops, e);
        if LostIn(ttl, ops, e) > 0 {
          LostInMeans(ttl, ops, e);
        }
      }
    }
  }

  // -------------------------------------------------------------------- distinct ids, and repeated ones

  /** With distinct ids nothing is ever lost. */
  lemma DistinctIdsLoseNothing(ttl: real, ops: seq<Op>)
    requires DistinctIds(ops)
    ensures NothingLost(ttl, ops)
  {
    forall n | 0 <= n < |ops| ensures !OverwritesAt(ttl, ops, n) {
      DistinctPrefix(ops, n + 1);
      assert ops[..n + 1][..n] == ops[..n];
      EveryRunKeepsInv(ttl, ops[..n]);
    }
    NothingLostIff(ttl, ops);
  }

  lemma {:induction false} DistinctPrefix(ops: seq<Op>, n: nat)
    requires DistinctIds(ops) && n <= |ops|
    ensures DistinctIds(ops[..n])
    decreases |ops|
  {
    if n == |ops| {
      assert ops[..n] == ops;
    } else {
      DistinctPrefix(ops[..|ops| - 1], n);
      assert ops[..|ops| - 1][..n] == ops[..n];
    }
  }

  /**
    A second orphan with the id of the first makes the first vanish: it is neither attached, pending nor
    quarantined.
   */
  lemma RepeatedIdOverwrites(ttl: real, first: Event, second: Event, at: real, later: real)
    requires first.id == second.id && first != second
    ensures var ops := [Receive(first, at), Receive(second, later)];
      && After(ttl, ops) == State(ttl, [], [Orphan(second, later, false, None)], [], map[])
      && Copies(After(ttl, ops), first) == 0 && Receives(first)(ops[0]) && OverwritesAt(ttl, ops, 1)
  {
    var ops := [Receive(first, at), Receive(second, later)];
    assert ops[..1] == [Receive(first, at)];
    var empty := State(ttl, [], [], [], map[]);
    var one := Received(empty, first, at);
    assert one.orphans == [Orphan(first, at, false, None)];
    assert After(ttl, ops[..1]) == Received(After(ttl, ops[..1][..0]), first, at) == one;
    assert Slot(one.orphans, second.id, 0) == 0;
    TallySingle(Orphan(second, later, false, None), UnattachedCopy(first));
  }

  ghost predicate DistinctOrphans(s: State) {
    forall i, j :: 0 <= i < j < |s.orphans| ==> s.orphans[i].event.id != s.orphans[j].event.id
  }

  lemma PassKeepsEvents(s: State, now: real)
    ensures |Reconciled(s, now).orphans| == |s.orphans|
    ensures forall i :: 0 <= i < |s.orphans| ==> Reconciled(s, now).orphans[i].event == s.orphans[i].event
  {
    VisitAllKeepsEvents(s, |s.orphans|, now);
    var p := VisitAll(s, |s.orphans|, now);
    QuarantineAllFrame(p.s, p.due, now);
  }

  lemma {:induction false} VisitAllKeepsEvents(s: State, n: nat, now: real)
    requires n <= |s.orphans|
    ensures forall i :: 0 <= i < |s.orphans| ==> VisitAll(s, n, now).s.orphans[i].event == s.orphans[i].event
    decreases n
  {
    if n > 0 {
      VisitAllKeepsEvents(s, n - 1, now);
    }
  }

  /**
    One op changes the event of a queued orphan exactly when it is a receive of another event with the same
    id that attaches nowhere.
   */
  lemma OrphanChangesIff(s: State, op: Op, i: nat)
    requires DistinctOrphans(s) && i < |s.orphans|
    ensures DistinctOrphans(Next(s, op)) && i < |Next(s, op).orphans|
    ensures Next(s, op).orphans[i].event != s.orphans[i].event <==>
            && op.Receive? && !Attaches(s, op.event)
            && op.event.id == s.orphans[i].event.id && op.event != s.orphans[i].event
  {
    if op.Reconcile? {
      PassKeepsEvents(s, op.now);
    }
  }
}

/**
  Where events end up: every event of a session belongs to it, every recovery
  is to the session its event matched, and every receipt of one can be checked.
 */
module SessionMembership {
  import opened Common
  import opened SessionQuarantine
  import opened SessionRuns
  import opened SessionEvents

  /** The two events share a reconciliation key that is present. */
  predicate Related(a: Event, b: Event) {
    || (b.conversationId != "" && a.conversationId == b.conversationId)
    || (b.parentId != "" && a.parentId == b.parentId)
    || (b.workspaceId != "" && a.workspaceId == b.workspaceId)
    || (b.taskId != "" && a.taskId == b.taskId)
  }

  /** The event names the session, or an event before it in the session is related to it. */
  ghost predicate MemberAt(node: Node, b: nat) {
    b < |node.events| && ((node.events[b].sessionId == node.id && node.id != "") || RelatedBefore(node, b))
  }

  ghost predicate RelatedBefore(node: Node, b: nat) {
    b < |node.events| && exists a :: 0 <= a < b && Related(node.events[a], node.events[b])
  }

  ghost predicate AllMembers(sessions: seq<Node>) {
    forall n, b :: 0 <= n < |sessions| && 0 <= b < |sessions[n].events| ==> MemberAt(sessions[n], b)
  }

  ghost predicate DistinctSessions(sessions: seq<Node>) {
    forall m, n :: 0 <= m < n < |sessions| ==> sessions[m].id != sessions[n].id
  }

  /** The session a receipt names holds its event, after one that is related to it. */
  ghost predicate Grounded(sessions: seq<Node>, r: Receipt) {
    r.recovered.Some? && exists n: nat, b: nat :: GroundedAt(sessions, r, n, b)
  }

  ghost predicate GroundedAt(sessions: seq<Node>, r: Receipt, n: nat, b: nat) {
    && n < |sessions| && b < |sessions[n].events|
    && r.recovered == Some(sessions[n].id) && sessions[n].events[b].id == r.eventId && RelatedBefore(sessions[n], b)
  }

  ghost predicate Truthful(sessions: seq<Node>, receipts: seq<Receipt>) {
    forall k :: 0 <= k < |receipts| ==>
      if receipts[k].status == Recovered then Grounded(sessions, receipts[k]) else receipts[k].recovered.None?
  }

  ghost predicate Ordered(s: State) {
    DistinctSessions(s.sessions) && AllMembers(s.sessions) && Truthful(s.sessions, s.receipts)
  }

  // -------------------------------------------------------------------- sessions grow

  /** Sessions are only added, and only get more events. */
  ghost predicate Grew(before: seq<Node>, after: seq<Node>) {
    && |before| <= |after|
    && forall n :: 0 <= n < |before| ==> after[n].id == before[n].id && before[n].events <= after[n].events
  }

  lemma TruthfulGrows(before: seq<Node>, after: seq<Node>, receipts: seq<Receipt>)
    requires Grew(before, after) && Truthful(before, receipts)
    ensures Truthful(after, receipts)
  {
    forall k | 0 <= k < |receipts| && receipts[k].status == Recovered ensures Grounded(after, receipts[k]) {
      var n: nat, b: nat :| GroundedAt(before, receipts[k], n, b);
      var a :| 0 <= a < b && Related(before[n].events[a], before[n].events[b]);
      assert after[n].events[a] == before[n].events[a];
      assert GroundedAt(after, receipts[k], n, b);
    }
  }

  /** Exactly session k gets the event, at its end. */
  ghost predicate Joined(before: seq<Node>, after: seq<Node>, k: nat, e: Event) {
    && k < |before| && |after| == |before|
    && after[k].id == before[k].id && after[k].events == before[k].events + [e]
    && forall n :: 0 <= n < |before| && n != k ==> after[n] == before[n]
  }

  lemma JoinedMembers(before: seq<Node>, after: seq<Node>, k: nat, e: Event)
    requires Joined(before, after, k, e) && AllMembers(before) && DistinctSessions(before)
    requires (e.sessionId == before[k].id && e.sessionId != "") || RelatedIn(before[k], e)
    ensures AllMembers(after) && DistinctSessions(after) && Grew(before, after)
  {
    forall n, b | 0 <= n < |after| && 0 <= b < |after[n].events| ensures MemberAt(after[n], b) {
      if n != k {
        assert MemberAt(before[n], b);
      } else {
        JoinedMember(before[k], after[k], e, b);
      }
    }
  }

  ghost predicate RelatedIn(node: Node, e: Event) {
    exists a :: 0 <= a < |node.events| && Related(node.events[a], e)
  }

  lemma JoinedMember(before: Node, after: Node, e: Event, b: nat)
    requires after.id == before.id && after.events == before.events + [e] && b < |after.events|
    requires forall c :: 0 <= c < |before.events| ==> MemberAt(before, c)
    requires (e.sessionId == before.id && e.sessionId != "") || RelatedIn(before, e)
    ensures MemberAt(after, b)
  {
    if b < |before.events| {
      assert MemberAt(before, b);
      if RelatedBefore(before, b) {
        var a :| 0 <= a < b && Related(before.events[a], before.events[b]);
        assert Related(after.events[a], after.events[b]);
      }
    } else if RelatedIn(before, e) {
      var a :| 0 <= a < |before.events| && Related(before.events[a], e);
      assert Related(after.events[a], after.events[b]);
    }
  }

  // -------------------------------------------------------------------- one visit

  lemma KeyRelates(a: Event, b: Event, j: nat)
    requires j < KEYS && Key(b, j) != "" && Key(a, j) == Key(b, j)
    ensures Related(a, b)
  {
  }

  lemma MatchRelates(sessions: seq<Node>, e: Event, k: nat)
    requires IsMatch(sessions, e, k)
    ensures RelatedIn(sessions[k], e)
  {
    var j: nat :| MatchesOn(sessions, e, j, k);
    var a :| 0 <= a < |sessions[k].events| && Key(sessions[k].events[a], j) == Key(e, j);
    KeyRelates(sessions[k].events[a], e, j);
  }

  /** An event matches at most one session. */
  lemma MatchUnique(sessions: seq<Node>, e: Event, k: nat, l: nat)
    requires IsMatch(sessions, e, k) && IsMatch(sessions, e, l)
    ensures k == l
  {
    var i: nat :| MatchesOn(sessions, e, i, k);
    var j: nat :| MatchesOn(sessions, e, j, l);
    if i < j {
      EarlierKeyFails(sessions, e, j, l, i, k);
    } else if j < i {
      EarlierKeyFails(sessions, e, i, k, j, l);
    }
  }

  /** Before the key an event matches on, no key matches any session. */
  lemma EarlierKeyFails(sessions: seq<Node>, e: Event, j: nat, k: nat, h: nat, l: nat)
    requires MatchesOn(sessions, e, j, k) && h < j
    ensures !MatchesOn(sessions, e, h, l)
  {
    assert NoneOn(sessions, e, h);
  }

  lemma MatchIs(sessions: seq<Node>, e: Event)
    ensures Match(sessions, e).Some? ==> IsMatch(sessions, e, Match(sessions, e).value)
    ensures Match(sessions, e).None? ==> forall k: nat :: !IsMatch(sessions, e, k)
  {
    MatchMeans(sessions, e);
    if Match(sessions, e).None? {
      forall k: nat, j: nat ensures !MatchesOn(sessions, e, j, k) {
        if j < KEYS {
          assert NoneOn(sessions, e, j);
        }
      }
    }
  }

  /** What a visit does to a pending orphan that matches session k. */
  ghost predicate RecoveredTo(s: State, t: State, i: nat, k: nat) {
    && i < |s.orphans| == |t.orphans| && Joined(s.sessions, t.sessions, k, s.orphans[i].event)
    && t.orphans[i] == s.orphans[i].(reconciled := true, recovered := Some(s.sessions[k].id))
    && |t.receipts| == |s.receipts| + 1 && t.receipts[..|s.receipts|] == s.receipts
    && t.receipts[|s.receipts|].status == Recovered
    && t.receipts[|s.receipts|].eventId == s.orphans[i].event.id
    && t.receipts[|s.receipts|].recovered == Some(s.sessions[k].id)
  }

  /** A visit recovers a pending orphan exactly to the session it matches, and to none if it matches none. */
  lemma VisitRecovers(p: Pass, i: nat, now: real)
    requires i < |p.s.orphans| && !p.s.orphans[i].reconciled
    ensures var t := Visit(p, i, now).s; var e := p.s.orphans[i].event;
      && (forall k: nat :: IsMatch(p.s.sessions, e, k) ==> RecoveredTo(p.s, t, i, k))
      && ((forall k: nat :: !IsMatch(p.s.sessions, e, k)) ==>
            t.sessions == p.s.sessions && t.orphans == p.s.orphans && t.receipts == p.s.receipts)
  {
    var t, e := Visit(p, i, now).s, p.s.orphans[i].event;
    MatchIs(p.s.sessions, e);
    VisitIs(p, i, now);
    forall k: nat | IsMatch(p.s.sessions, e, k) ensures RecoveredTo(p.s, t, i, k) {
      MatchUnique(p.s.sessions, e, k, Match(p.s.sessions, e).value);
    }
  }

  lemma RecoveryKeeps(s: State, t: State, i: nat, k: nat)
    requires Ordered(s) && RecoveredTo(s, t, i, k) && IsMatch(s.sessions, s.orphans[i].event, k)
    ensures Ordered(t) && Grew(s.sessions, t.sessions)
  {
    var e := s.orphans[i].event;
    MatchRelates(s.sessions, e, k);
    JoinedMembers(s.sessions, t.sessions, k, e);
    TruthfulGrows(s.sessions, t.sessions, s.receipts);
    NewReceiptGrounded(s, t, i, k);
    forall j | 0 <= j < |s.receipts| ensures t.receipts[j] == s.receipts[j] {
      assert t.receipts[..|s.receipts|][j] == s.receipts[j];
    }
  }

  lemma NewReceiptGrounded(s: State, t: State, i: nat, k: nat)
    requires RecoveredTo(s, t, i, k) && RelatedIn(s.sessions[k], s.orphans[i].event)
    ensures Grounded(t.sessions, t.receipts[|s.receipts|])
  {
    var e, b := s.orphans[i].event, |s.sessions[k].events|;
    var a :| 0 <= a < b && Related(s.sessions[k].events[a], e);
    assert t.sessions[k].events[a] == s.sessions[k].events[a] && t.sessions[k].events[b] == e;
    assert GroundedAt(t.sessions, t.receipts[|s.receipts|], k, b);
  }

  lemma VisitKeepsOrder(p: Pass, i: nat, now: real)
    requires i < |p.s.orphans| && Ordered(p.s)
    ensures Ordered(Visit(p, i, now).s) && Grew(p.s.sessions, Visit(p, i, now).s.sessions)
  {
    if !p.s.orphans[i].reconciled {
      var e := p.s.orphans[i].event;
      VisitRecovers(p, i, now);
      MatchIs(p.s.sessions, e);
      if Match(p.s.sessions, e).Some? {
        RecoveryKeeps(p.s, Visit(p, i, now).s, i, Match(p.s.sessions, e).value);
      }
    }
  }

  // -------------------------------------------------------------------- a whole pass

  lemma GrewTransitive(a: seq<Node>, b: seq<Node>, c: seq<Node>)
    requires Grew(a, b) && Grew(b, c)
    ensures Grew(a, c)
  {
    forall n | 0 <= n < |a| ensures c[n].id == a[n].id && a[n].events <= c[n].events {
      assert b[n].events <= c[n].events && a[n].events <= b[n].events;
    }
  }

  /** What is set aside as too old was never recovered. */
  ghost predicate NoneRecovered(orphans: seq<Orphan>, due: seq<nat>) {
    forall k :: 0 <= k < |due| ==> due[k] < |orphans| && orphans[due[k]].recovered.None?
  }

  lemma VisitSetsAside(p: Pass, i: nat, now: real)
    requires i < |p.s.orphans| && NoneRecovered(p.s.orphans, p.due) && Sound(p.s)
    requires forall k :: 0 <= k < |p.due| ==> p.due[k] < i
    ensures NoneRecovered(Visit(p, i, now).s.orphans, Visit(p, i, now).due)
  {
    VisitFrame(p, i, now);
  }

  lemma {:induction false} PassKeepsOrder(s: State, n: nat, now: real)
    requires n <= |s.orphans| && Ordered(s) && Sound(s)
    ensures Ordered(VisitAll(s, n, now).s) && Grew(s.sessions, VisitAll(s, n, now).s.sessions)
    ensures NoneRecovered(VisitAll(s, n, now).s.orphans, VisitAll(s, n, now).due)
    decreases n
  {
    if n > 0 {
      var m: nat := n - 1;
      PassKeepsOrder(s, m, now);
      DueInRange(s, m, now);
      VisitAllSound(s, m, now);
      VisitKeepsOrder(VisitAll(s, m, now), m, now);
      VisitSetsAside(VisitAll(s, m, now), m, now);
      GrewTransitive(s.sessions, VisitAll(s, m, now).s.sessions, VisitAll(s, n, now).s.sessions);
    }
  }

  lemma VisitAllSound(s: State, n: nat, now: real)
    requires n <= |s.orphans| && Sound(s)
    ensures Sound(VisitAll(s, n, now).s)
  {
    VisitAllCopies(s, n, now, Event("", "", "", "", "", ""));
  }

  lemma {:induction false} QuarantiningKeepsOrder(s: State, due: seq<nat>, now: real)
    requires Ordered(s) && NoneRecovered(s.orphans, due)
    ensures Ordered(QuarantineAll(s, due, now)) && QuarantineAll(s, due, now).sessions == s.sessions
    decreases |due|
  {
    if due != [] {
      var m := |due| - 1;
      QuarantiningKeepsOrder(s, due[..m], now);
      QuarantineAllFrame(s, due[..m], now);
      OneQuarantineKeepsOrder(QuarantineAll(s, due[..m], now), due[m], now);
    }
  }

  lemma OneQuarantineKeepsOrder(s: State, i: nat, now: real)
    requires Ordered(s) && i < |s.orphans| && s.orphans[i].recovered.None?
    ensures Ordered(Quarantine(s, i, now)) && Quarantine(s, i, now).sessions == s.sessions
  {
  }

  lemma ReconcileKeepsOrder(s: State, now: real)
    requires Ordered(s) && Sound(s)
    ensures Ordered(Reconciled(s, now)) && Grew(s.sessions, Reconciled(s, now).sessions)
  {
    PassKeepsOrder(s, |s.orphans|, now);
    var p := VisitAll(s, |s.orphans|, now);
    QuarantiningKeepsOrder(p.s, p.due, now);
  }

  lemma {:induction false} LaterVisitsLeave(s: State, i: nat, n: nat, now: real)
    requires i < n <= |s.orphans|
    ensures VisitAll(s, n, now).s.orphans[i] == VisitAll(s, i + 1, now).s.orphans[i]
    decreases n
  {
    if i + 1 < n {
      var m: nat := n - 1;
      LaterVisitsLeave(s, i, m, now);
      VisitFrame(VisitAll(s, m, now), m, now);
    }
  }

  lemma PassOutcome(s: State, i: nat, now: real)
    requires i < |s.orphans|
    ensures VisitAll(s, i, now).s.orphans[i] == s.orphans[i]
    ensures Reconciled(s, now).orphans[i].recovered == VisitAll(s, i + 1, now).s.orphans[i].recovered
  {
    var p := VisitAll(s, |s.orphans|, now);
    VisitAllFrame(s, i, now);
    LaterVisitsLeave(s, i, |s.orphans|, now);
    QuarantineAllFrame(p.s, p.due, now);
  }

  /**
    In a pass, an orphan that is pending when it starts is recovered exactly if it
    matches a session in the state at its visit; that visit appends it to that
    session, leaves every other as it was, and the session named is that one.
   */
  lemma PassRecovers(s: State, i: nat, now: real)
    requires i < |s.orphans| && !s.orphans[i].reconciled && s.orphans[i].recovered.None?
    ensures var at, after := VisitAll(s, i, now).s, VisitAll(s, i + 1, now).s; var e := s.orphans[i].event;
      && (forall k: nat :: IsMatch(at.sessions, e, k) ==>
            && Joined(at.sessions, after.sessions, k, e)
            && Reconciled(s, now).orphans[i].recovered == Some(at.sessions[k].id))
      && ((forall k: nat :: !IsMatch(at.sessions, e, k)) ==>
            after.sessions == at.sessions && Reconciled(s, now).orphans[i].recovered.None?)
  {
    PassOutcome(s, i, now);
    VisitRecovers(VisitAll(s, i, now), i, now);
  }

  // -------------------------------------------------------------------- every run

  lemma ReceiveKeepsOrder(s: State, e: Event, now: real)
    requires Ordered(s)
    ensures Ordered(Received(s, e, now))
  {
    var k := Position(s.sessions, e.sessionId, 0);
    if e.sessionId != "" && k < |s.sessions| {
      var t := Received(s, e, now);
      assert Joined(s.sessions, t.sessions, k, e);
      JoinedMembers(s.sessions, t.sessions, k, e);
      TruthfulGrows(s.sessions, t.sessions, s.receipts);
    }
  }

  lemma RegisterKeepsOrder(s: State, id: string)
    requires Ordered(s)
    ensures Ordered(Registered(s, id))
  {
    var t := Registered(s, id);
    assert Grew(s.sessions, t.sessions);
    TruthfulGrows(s.sessions, t.sessions, s.receipts);
    forall n, b | 0 <= n < |t.sessions| && 0 <= b < |t.sessions[n].events| ensures MemberAt(t.sessions[n], b) {
      assert t.sessions[n] == s.sessions[n];
    }
  }

  /**
    After any run, ids repeated or not: every event of a session names it or
    comes after one it shares a key with; a recovery's receipt names the session
    that holds its event after one it shares a key with; a quarantine's names none.
   */
  lemma {:induction false} EveryRunIsOrdered(ttl: real, ops: seq<Op>)
    ensures Ordered(After(ttl, ops))
    decreases |ops|
  {
    if ops != [] {
      var n := |ops| - 1;
      var s := After(ttl, ops[..n]);
      EveryRunIsOrdered(ttl, ops[..n]);
      match ops[n]
      case Register(id) => RegisterKeepsOrder(s, id);
      case Receive(e, at) => ReceiveKeepsOrder(s, e, at);
      case Reconcile(now) =>
        EveryCopyAccounted(ttl, ops[..n], Event("", "", "", "", "", ""));
        ReconcileKeepsOrder(s, now);
    }
  }

  /** A session registered under the empty name never holds an event, so no event ever matches it. */
  lemma NamelessStaysEmpty(ttl: real, ops: seq<Op>, n: nat)
    requires n < |After(ttl, ops).sessions| && After(ttl, ops).sessions[n].id == ""
    ensures After(ttl, ops).sessions[n].events == []
    ensures forall e: Event :: !IsMatch(After(ttl, ops).sessions, e, n)
  {
    EveryRunIsOrdered(ttl, ops);
    var node := After(ttl, ops).sessions[n];
    if node.events != [] {
      FirstNamesSession(node);
    }
  }

  lemma FirstNamesSession(node: Node)
    requires node.events != [] && forall b :: 0 <= b < |node.events| ==> MemberAt(node, b)
    ensures node.id != ""
  {
    assert MemberAt(node, 0);
  }

  /** Session k is the first to hold an event for which f holds. */
  ghost predicate FirstWith(sessions: seq<Node>, f: Event -> bool, k: nat) {
    k < |sessions| && Has(sessions[k], f) && forall i :: 0 <= i < k ==> !Has(sessions[i], f)
  }

  ghost predicate Has(node: Node, f: Event -> bool) {
    exists a :: 0 <= a < |node.events| && f(node.events[a])
  }

  ghost predicate NoneWith(sessions: seq<Node>, f: Event -> bool) {
    forall i :: 0 <= i < |sessions| ==> !Has(sessions[i], f)
  }

  function SameConversation(e: Event): Event -> bool {
    (x: Event) => e.conversationId != "" && x.conversationId == e.conversationId
  }

  function SameParent(e: Event): Event -> bool {
    (x: Event) => e.parentId != "" && x.parentId == e.parentId
  }

  function SameWorkspace(e: Event): Event -> bool {
    (x: Event) => e.workspaceId != "" && x.workspaceId == e.workspaceId
  }

  function SameTask(e: Event): Event -> bool {
    (x: Event) => e.taskId != "" && x.taskId == e.taskId
  }

  /** The keys in their order: conversation, parent, workspace, task. */
  ghost predicate MatchesInOrder(sessions: seq<Node>, e: Event, k: nat) {
    if !NoneWith(sessions, SameConversation(e)) then FirstWith(sessions, SameConversation(e), k)
    else if !NoneWith(sessions, SameParent(e)) then FirstWith(sessions, SameParent(e), k)
    else if !NoneWith(sessions, SameWorkspace(e)) then FirstWith(sessions, SameWorkspace(e), k)
    else FirstWith(sessions, SameTask(e), k)
  }

  function SameKey(e: Event, j: nat): Event -> bool {
    if j == 0 then SameConversation(e) else if j == 1 then SameParent(e)
    else if j == 2 then SameWorkspace(e) else SameTask(e)
  }

  lemma SharesMeansHas(node: Node, e: Event, j: nat)
    requires j < KEYS
    ensures Has(node, SameKey(e, j)) <==> Key(e, j) != "" && Shares(node, e, j)
  {
    if Key(e, j) != "" && Shares(node, e, j) {
      var a :| 0 <= a < |node.events| && Key(node.events[a], j) == Key(e, j);
      assert SameKey(e, j)(node.events[a]);
    }
    if Has(node, SameKey(e, j)) {
      var a :| 0 <= a < |node.events| && SameKey(e, j)(node.events[a]);
      assert Key(node.events[a], j) == Key(e, j);
    }
  }

  lemma KeyDecides(sessions: seq<Node>, e: Event, j: nat, k: nat)
    requires j < KEYS
    ensures NoneOn(sessions, e, j) <==> NoneWith(sessions, SameKey(e, j))
    ensures FirstWith(sessions, SameKey(e, j), k) <==>
            && k < |sessions| && Key(e, j) != "" && Shares(sessions[k], e, j)
            && forall i :: 0 <= i < k ==> !Shares(sessions[i], e, j)
  {
    forall i | 0 <= i < |sessions|
      ensures Has(sessions[i], SameKey(e, j)) <==> Key(e, j) != "" && Shares(sessions[i], e, j)
    {
      SharesMeansHas(sessions[i], e, j);
    }
  }

  /** The session an event matches is the one the order of its four keys says. */
  lemma MatchFollowsKeys(sessions: seq<Node>, e: Event, k: nat)
    ensures IsMatch(sessions, e, k) <==> MatchesInOrder(sessions, e, k)
  {
    forall j: nat | j < KEYS
      ensures NoneOn(sessions, e, j) <==> NoneWith(sessions, SameKey(e, j))
      ensures MatchesOn(sessions, e, j, k) <==>
              FirstWith(sessions, SameKey(e, j), k) && forall h :: 0 <= h < j ==> NoneOn(sessions, e, h)
    {
      KeyDecides(sessions, e, j, k);
    }
    MatchByKey(sessions, e, k);
  }

  lemma MatchByKey(sessions: seq<Node>, e: Event, k: nat)
    requires forall j: nat :: j < KEYS ==> (NoneOn(sessions, e, j) <==> NoneWith(sessions, SameKey(e, j)))
    requires forall j: nat :: j < KEYS ==>
      (MatchesOn(sessions, e, j, k) <==>
       FirstWith(sessions, SameKey(e, j), k) && forall h :: 0 <= h < j ==> NoneOn(sessions, e, h))
    ensures IsMatch(sessions, e, k) <==> MatchesInOrder(sessions, e, k)
  {
    assert SameKey(e, 0) == SameConversation(e) && SameKey(e, 1) == SameParent(e);
    assert SameKey(e, 2) == SameWorkspace(e) && SameKey(e, 3) == SameTask(e);
    if IsMatch(sessions, e, k) {
      var j: nat :| MatchesOn(sessions, e, j, k);
      assert j < KEYS;
    }
    if MatchesInOrder(sessions, e, k) {
      var j: nat := if !NoneWith(sessions, SameConversation(e)) then 0 else if !NoneWith(sessions, SameParent(e)) then 1
                    else if !NoneWith(sessions, SameWorkspace(e)) then 2 else 3;
      assert FirstWith(sessions, SameKey(e, j), k);
      assert MatchesOn(sessions, e, j, k);
    }
  }
}

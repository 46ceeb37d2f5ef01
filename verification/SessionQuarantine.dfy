/**
  The session-quarantine protocol: an event joins a known session, waits as an
  orphan until a session shares one of its keys, or is quarantined when its time
  to live is over.
 */
module SessionQuarantine {
  import opened Common

  /** A lifecycle event; an absent or empty field reads as the empty string. */
  datatype Event = Event(id: string, sessionId: string,
                         conversationId: string, parentId: string, workspaceId: string, taskId: string)

  datatype Node = Node(id: string, events: seq<Event>)

  datatype Orphan = Orphan(event: Event, receivedAt: real, reconciled: bool, recovered: Option<string>)

  datatype Status = Recovered | Quarantined

  datatype Receipt = Receipt(eventId: string, status: Status, at: real, attempts: nat, recovered: Option<string>)

  /** Sessions and orphans in the order they were added. */
  datatype State = State(ttl: real, sessions: seq<Node>, orphans: seq<Orphan>, receipts: seq<Receipt>,
                         counts: map<string, nat>)

  const KEYS: nat := 4

  /** The reconciliation keys in the order they are tried. */
  function Key(e: Event, j: nat): string {
    if j == 0 then e.conversationId else if j == 1 then e.parentId else if j == 2 then e.workspaceId else e.taskId
  }

  function Count(m: map<string, nat>, id: string): nat {
    if id in m then m[id] else 0
  }

  // -------------------------------------------------------------------- matching

  predicate Shares(node: Node, e: Event, j: nat) {
    exists i :: 0 <= i < |node.events| && Key(node.events[i], j) == Key(e, j)
  }

  /** Session k is the one an event is reconciled to: the first that shares the first key any session shares. */
  ghost predicate IsMatch(sessions: seq<Node>, e: Event, k: nat) {
    k < |sessions| && exists j: nat :: MatchesOn(sessions, e, j, k)
  }

  ghost predicate MatchesOn(sessions: seq<Node>, e: Event, j: nat, k: nat) {
    && j < KEYS && k < |sessions| && Key(e, j) != "" && Shares(sessions[k], e, j)
    && (forall i :: 0 <= i < k ==> !Shares(sessions[i], e, j))
    && (forall h :: 0 <= h < j ==> NoneOn(sessions, e, h))
  }

  /** No session shares key j of the event. */
  ghost predicate NoneOn(sessions: seq<Node>, e: Event, j: nat) {
    Key(e, j) == "" || forall i :: 0 <= i < |sessions| ==> !Shares(sessions[i], e, j)
  }

  function FirstSharing(sessions: seq<Node>, e: Event, j: nat, k: nat): (r: Option<nat>)
    requires k <= |sessions|
    ensures r.Some? ==> k <= r.value < |sessions| && Shares(sessions[r.value], e, j)
    ensures r.Some? ==> forall i :: k <= i < r.value ==> !Shares(sessions[i], e, j)
    ensures r.None? ==> forall i :: k <= i < |sessions| ==> !Shares(sessions[i], e, j)
    decreases |sessions| - k
  {
    if k == |sessions| then None
    else if Shares(sessions[k], e, j) then Some(k)
    else FirstSharing(sessions, e, j, k + 1)
  }

  function MatchFrom(sessions: seq<Node>, e: Event, j: nat): Option<nat>
    requires j <= KEYS
    decreases KEYS - j
  {
    if j == KEYS then None
    else if Key(e, j) == "" then MatchFrom(sessions, e, j + 1)
    else
      var k := FirstSharing(sessions, e, j, 0);
      if k.Some? then k else MatchFrom(sessions, e, j + 1)
  }

  function Match(sessions: seq<Node>, e: Event): Option<nat> {
    MatchFrom(sessions, e, 0)
  }

  lemma {:induction false} MatchFromMeans(sessions: seq<Node>, e: Event, j: nat)
    requires j <= KEYS && forall h :: 0 <= h < j ==> NoneOn(sessions, e, h)
    ensures var r := MatchFrom(sessions, e, j);
      if r.Some? then IsMatch(sessions, e, r.value) else forall h :: 0 <= h < KEYS ==> NoneOn(sessions, e, h)
    decreases KEYS - j
  {
    if j < KEYS {
      var k := FirstSharing(sessions, e, j, 0);
      if Key(e, j) != "" && k.Some? {
        assert MatchesOn(sessions, e, j, k.value);
      } else {
        assert NoneOn(sessions, e, j);
        MatchFromMeans(sessions, e, j + 1);
      }
    }
  }

  /**
    An event is matched exactly when some session shares a key with it, and to the session the order of keys
    and sessions says.
   */
  lemma MatchMeans(sessions: seq<Node>, e: Event)
    ensures var r := Match(sessions, e);
      if r.Some? then IsMatch(sessions, e, r.value) else forall j :: 0 <= j < KEYS ==> NoneOn(sessions, e, j)
  {
    MatchFromMeans(sessions, e, 0);
  }

  lemma MatchInRange(sessions: seq<Node>, e: Event)
    ensures Match(sessions, e).Some? ==> Match(sessions, e).value < |sessions|
  {
    MatchMeans(sessions, e);
  }

  // -------------------------------------------------------------------- operations

  predicate Knows(sessions: seq<Node>, id: string) {
    exists k :: 0 <= k < |sessions| && sessions[k].id == id
  }

  /** The position of a registered session. */
  function Position(sessions: seq<Node>, id: string, k: nat): (r: nat)
    requires k <= |sessions|
    ensures k <= r <= |sessions|
    ensures r < |sessions| ==> sessions[r].id == id
    ensures forall i :: k <= i < r ==> sessions[i].id != id
    decreases |sessions| - k
  {
    if k == |sessions| || sessions[k].id == id then k else Position(sessions, id, k + 1)
  }

  function Attach(sessions: seq<Node>, k: nat, e: Event): (r: seq<Node>)
    requires k < |sessions|
    ensures |r| == |sessions|
  {
    sessions[k := Node(sessions[k].id, sessions[k].events + [e])]
  }

  function Registered(s: State, id: string): State {
    if Knows(s.sessions, id) then s else s.(sessions := s.sessions + [Node(id, [])])
  }

  /** The position of an orphan entry, or the end of the queue. */
  function Slot(orphans: seq<Orphan>, id: string, i: nat): (r: nat)
    requires i <= |orphans|
    ensures i <= r <= |orphans|
    ensures r < |orphans| ==> orphans[r].event.id == id
    ensures forall j :: i <= j < r ==> orphans[j].event.id != id
    decreases |orphans| - i
  {
    if i == |orphans| || orphans[i].event.id == id then i else Slot(orphans, id, i + 1)
  }

  /** Storing under an id already used replaces the entry. */
  function Enqueue(orphans: seq<Orphan>, o: Orphan): seq<Orphan> {
    var i := Slot(orphans, o.event.id, 0);
    if i < |orphans| then orphans[i := o] else orphans + [o]
  }

  function Received(s: State, e: Event, now: real): State {
    var k := Position(s.sessions, e.sessionId, 0);
    if e.sessionId != "" && k < |s.sessions| then s.(sessions := Attach(s.sessions, k, e))
    else s.(orphans := Enqueue(s.orphans, Orphan(e, now, false, None)))
  }

  /** A reconcile pass under way: the state, and the orphans found too old so far. */
  datatype Pass = Pass(s: State, due: seq<nat>)

  function Recover(s: State, i: nat, k: nat, now: real): State
    requires i < |s.orphans| && k < |s.sessions|
  {
    var o := s.orphans[i];
    var to := s.sessions[k].id;
    s.(sessions := Attach(s.sessions, k, o.event),
       orphans := s.orphans[i := o.(reconciled := true, recovered := Some(to))],
       receipts := s.receipts + [Receipt(o.event.id, Recovered, now, Count(s.counts, o.event.id), Some(to))])
  }

  function Visit(p: Pass, i: nat, now: real): (r: Pass)
    requires i < |p.s.orphans|
    ensures |r.s.orphans| == |p.s.orphans|
  {
    var o := p.s.orphans[i];
    if o.reconciled then p
    else
      var s := p.s.(counts := p.s.counts[o.event.id := Count(p.s.counts, o.event.id) + 1]);
      var k := Match(s.sessions, o.event);
      MatchInRange(s.sessions, o.event);
      if k.Some? then p.(s := Recover(s, i, k.value, now))
      else if now - o.receivedAt >= s.ttl then Pass(s, p.due + [i])
      else p.(s := s)
  }

  function VisitAll(s: State, n: nat, now: real): (p: Pass)
    requires n <= |s.orphans|
    ensures |p.s.orphans| == |s.orphans|
  {
    if n == 0 then Pass(s, []) else Visit(VisitAll(s, n - 1, now), n - 1, now)
  }

  function Quarantine(s: State, i: nat, now: real): (t: State)
    ensures |t.orphans| == |s.orphans|
  {
    if i >= |s.orphans| then s else
      var o := s.orphans[i];
      s.(orphans := s.orphans[i := o.(reconciled := true)],
         receipts := s.receipts + [Receipt(o.event.id, Quarantined, now, Count(s.counts, o.event.id), o.recovered)])
  }

  function QuarantineAll(s: State, due: seq<nat>, now: real): (t: State)
    ensures |t.orphans| == |s.orphans|
  {
    if due == [] then s else Quarantine(QuarantineAll(s, due[..|due| - 1], now), due[|due| - 1], now)
  }

  function Reconciled(s: State, now: real): (t: State)
    ensures |t.orphans| == |s.orphans|
  {
    var p := VisitAll(s, |s.orphans|, now);
    QuarantineAll(p.s, p.due, now)
  }

  class SessionQuarantineProtocol {
    const ttl: real
    var sessions: seq<Node>
    var orphans: seq<Orphan>
    var receipts: seq<Receipt>
    var counts: map<string, nat>

    ghost function View(): State
      reads this
    {
      State(ttl, sessions, orphans, receipts, counts)
    }

    constructor (ttl: real)
      ensures View() == State(ttl, [], [], [], map[])
    {
      this.ttl := ttl;
      sessions, orphans, receipts, counts := [], [], [], map[];
    }

    method RegisterSession(id: string)
      modifies this
      ensures View() == Registered(old(View()), id)
    {
      if !Knows(sessions, id) {
        sessions := sessions + [Node(id, [])];
      }
    }

    /** Attach to a known session, or queue as an orphan. */
    method EventReceived(e: Event, now: real) returns (attached: bool)
      modifies this
      ensures View() == Received(old(View()), e, now)
      ensures attached <==> e.sessionId != "" && old(Knows(sessions, e.sessionId))
    {
      var k := Position(sessions, e.sessionId, 0);
      if e.sessionId != "" && k < |sessions| {
        sessions := Attach(sessions, k, e);
        return true;
      }
      orphans := Enqueue(orphans, Orphan(e, now, false, None));
      return false;
    }

    /** Whether any event of a session carries the same key. */
    static method HasKey(node: Node, e: Event, j: nat) returns (found: bool)
      ensures found <==> Shares(node, e, j)
    {
      for i := 0 to |node.events|
        invariant forall h :: 0 <= h < i ==> Key(node.events[h], j) != Key(e, j)
      {
        if Key(node.events[i], j) == Key(e, j) {
          return true;
        }
      }
      return false;
    }

    /** The first session that shares the first key any session shares. */
    static method FindMatchingSession(sessions: seq<Node>, e: Event) returns (r: Option<nat>)
      ensures r == Match(sessions, e)
    {
      for j := 0 to KEYS
        invariant Match(sessions, e) == MatchFrom(sessions, e, j)
      {
        if Key(e, j) != "" {
          for k := 0 to |sessions|
            invariant FirstSharing(sessions, e, j, 0) == FirstSharing(sessions, e, j, k)
          {
            var found := HasKey(sessions[k], e, j);
            if found {
              return Some(k);
            }
          }
        }
      }
      return None;
    }

    /** Visit one orphan of the queue. */
    method VisitOrphan(i: nat, now: real, due: seq<nat>) returns (more: seq<nat>)
      requires i < |orphans|
      modifies this
      ensures Pass(View(), more) == Visit(Pass(old(View()), due), i, now)
    {
      var o := orphans[i];
      more := due;
      if o.reconciled {
        return;
      }
      counts := counts[o.event.id := Count(counts, o.event.id) + 1];
      var found := FindMatchingSession(sessions, o.event);
      MatchInRange(sessions, o.event);
      if found.Some? {
        var to := sessions[found.value].id;
        sessions := Attach(sessions, found.value, o.event);
        orphans := orphans[i := o.(reconciled := true, recovered := Some(to))];
        receipts := receipts + [Receipt(o.event.id, Recovered, now, Count(counts, o.event.id), Some(to))];
        return;
      }
      if now - o.receivedAt >= ttl {
        more := due + [i];
      }
    }

    method QuarantineOrphan(i: nat, now: real)
      requires i < |orphans|
      modifies this
      ensures View() == Quarantine(old(View()), i, now)
    {
      var o := orphans[i];
      orphans := orphans[i := o.(reconciled := true)];
      receipts := receipts + [Receipt(o.event.id, Quarantined, now, Count(counts, o.event.id), o.recovered)];
    }

    /** One pass over the queue, the quarantines last. */
    method Reconcile(now: real)
      modifies this
      ensures View() == Reconciled(old(View()), now)
    {
      var due: seq<nat> := [];
      var n := |orphans|;
      for i := 0 to n
        invariant |orphans| == n
        invariant Pass(View(), due) == VisitAll(old(View()), i, now)
      {
        due := VisitOrphan(i, now, due);
      }
      ghost var visited := View();
      DueInRange(old(View()), n, now);
      for k := 0 to |due|
        invariant |orphans| == n
        invariant View() == QuarantineAll(visited, due[..k], now)
      {
        assert due[..k + 1][..k] == due[..k];
        QuarantineOrphan(due[k], now);
      }
      assert due[..|due|] == due;
    }
  }

  lemma {:induction false} DueInRange(s: State, n: nat, now: real)
    requires n <= |s.orphans|
    ensures forall k :: 0 <= k < |VisitAll(s, n, now).due| ==> VisitAll(s, n, now).due[k] < n
    decreases n
  {
    if n > 0 {
      DueInRange(s, n - 1, now);
    }
  }
}

/** What every history of recording and draining proposals keeps. */
module ProposalRuns {
  import opened Proposals
  import opened Tallies

  function WithId(id: string): Entry -> bool {
    (e: Entry) => e.id == id
  }

  function Times(s: seq<Entry>, id: string): nat {
    Tally(s, WithId(id))
  }

  lemma AbsentEverywhere(s: seq<Entry>, id: string)
    requires Times(s, id) == 0
    ensures forall i :: 0 <= i < |s| ==> s[i].id != id
  {
    TallyZero(s, WithId(id));
    forall i | 0 <= i < |s| ensures s[i].id != id {
      assert !WithId(id)(s[i]);
    }
  }

  lemma PresentSomewhere(s: seq<Entry>, id: string) returns (i: nat)
    requires Times(s, id) > 0
    ensures i < |s| && s[i].id == id
  {
    TallyZero(s, WithId(id));
    i :| i < |s| && WithId(id)(s[i]);
  }

  /** In how many places a proposal is, those a run has in hand included. */
  function Places(d: Desk, inHand: seq<Entry>, id: string): nat {
    Times(d.queue, id) + Times(d.proposed, id) + Times(d.dead, id) + Times(d.lost, id) + Times(inHand, id)
  }

  ghost predicate InOnePlace(d: Desk, inHand: seq<Entry>) {
    forall id :: Places(d, inHand, id) == One(id in d.recorded)
  }

  /** The attempts written in each entry are the times it was picked up. */
  ghost predicate Counted(s: seq<Entry>, picks: map<string, nat>, lo: nat, hi: nat) {
    forall i :: 0 <= i < |s| ==> s[i].attempts == Count(picks, s[i].id) && lo <= s[i].attempts <= hi
  }

  ghost predicate CallsBounded(d: Desk) {
    forall id :: Count(d.calls, id) <= 2 * Count(d.picks, id)
  }

  ghost predicate AllCounted(d: Desk, inHand: seq<Entry>) {
    && Counted(d.queue, d.picks, 0, MAX_ATTEMPTS - 1)
    && Counted(inHand, d.picks, 0, MAX_ATTEMPTS - 1)
    && Counted(d.lost, d.picks, 0, MAX_ATTEMPTS - 1)
    && Counted(d.proposed, d.picks, 1, MAX_ATTEMPTS)
    && Counted(d.dead, d.picks, MAX_ATTEMPTS, MAX_ATTEMPTS)
  }

  ghost predicate Inv(d: Desk, inHand: seq<Entry>) {
    InOnePlace(d, inHand) && AllCounted(d, inHand) && CallsBounded(d) && d.picks.Keys <= d.recorded
  }

  lemma CountedElsewhere(s: seq<Entry>, picks: map<string, nat>, lo: nat, hi: nat, id: string)
    requires Counted(s, picks, lo, hi) && Times(s, id) == 0
    ensures Counted(s, picks[id := Count(picks, id) + 1], lo, hi)
  {
    AbsentEverywhere(s, id);
  }

  lemma CountedAppend(s: seq<Entry>, picks: map<string, nat>, lo: nat, hi: nat, e: Entry)
    requires Counted(s, picks, lo, hi) && e.attempts == Count(picks, e.id) && lo <= e.attempts <= hi
    ensures Counted(s + [e], picks, lo, hi)
  {
  }

  lemma HandlePlaces(d: Desk, e: Entry, rest: seq<Entry>, o: Outcome)
    requires InOnePlace(d, [e] + rest)
    ensures InOnePlace(Handle(d, e, o), rest)
  {
    forall id ensures Places(Handle(d, e, o), rest, id) == One(id in Handle(d, e, o).recorded) {
      assert Places(d, [e] + rest, id) == One(id in d.recorded);
      PlaceMoves(d, e, rest, o, id);
    }
  }

  lemma PlaceMoves(d: Desk, e: Entry, rest: seq<Entry>, o: Outcome, id: string)
    ensures Places(Handle(d, e, o), rest, id) == Places(d, [e] + rest, id)
  {
    var next := Entry(e.id, e.attempts + 1);
    TallyFirst(e, rest, WithId(id));
    if o.opens {
      TallyAppend(d.proposed, next, WithId(id));
    } else if next.attempts >= MAX_ATTEMPTS {
      TallyAppend(d.dead, next, WithId(id));
    } else {
      TallyAppend(d.queue, next, WithId(id));
    }
  }

  /** The entry in hand is nowhere else. */
  lemma Alone(d: Desk, e: Entry, rest: seq<Entry>)
    requires InOnePlace(d, [e] + rest)
    ensures Times(d.queue, e.id) == Times(d.proposed, e.id) == Times(d.dead, e.id) == Times(d.lost, e.id)
            == Times(rest, e.id) == 0
    ensures e.id in d.recorded
  {
    assert Places(d, [e] + rest, e.id) == One(e.id in d.recorded);
    TallyConcat([e], rest, WithId(e.id));
    TallySingle(e, WithId(e.id));
  }

  lemma CountedTail(e: Entry, rest: seq<Entry>, picks: map<string, nat>, lo: nat, hi: nat)
    requires Counted([e] + rest, picks, lo, hi)
    ensures Counted(rest, picks, lo, hi) && e.attempts == Count(picks, e.id) && lo <= e.attempts <= hi
  {
    assert ([e] + rest)[0] == e;
    assert forall i :: 0 <= i < |rest| ==> ([e] + rest)[i + 1] == rest[i];
  }

  /** Picking a proposal up leaves the attempts of all the others right. */
  lemma PickKeepsCounts(d: Desk, e: Entry, rest: seq<Entry>)
    requires InOnePlace(d, [e] + rest) && AllCounted(d, [e] + rest)
    ensures AllCounted(d.(picks := d.picks[e.id := Count(d.picks, e.id) + 1]), rest)
    ensures e.attempts == Count(d.picks, e.id) < MAX_ATTEMPTS
  {
    Alone(d, e, rest);
    CountedTail(e, rest, d.picks, 0, MAX_ATTEMPTS - 1);
    CountedElsewhere(rest, d.picks, 0, MAX_ATTEMPTS - 1, e.id);
    CountedElsewhere(d.queue, d.picks, 0, MAX_ATTEMPTS - 1, e.id);
    CountedElsewhere(d.lost, d.picks, 0, MAX_ATTEMPTS - 1, e.id);
    CountedElsewhere(d.proposed, d.picks, 1, MAX_ATTEMPTS, e.id);
    CountedElsewhere(d.dead, d.picks, MAX_ATTEMPTS, MAX_ATTEMPTS, e.id);
  }

  lemma HandleCounts(d: Desk, e: Entry, rest: seq<Entry>, o: Outcome)
    requires InOnePlace(d, [e] + rest) && AllCounted(d, [e] + rest)
    ensures AllCounted(Handle(d, e, o), rest)
  {
    PickKeepsCounts(d, e, rest);
    var next := Entry(e.id, e.attempts + 1);
    var picks := d.picks[e.id := Count(d.picks, e.id) + 1];
    if o.opens {
      CountedAppend(d.proposed, picks, 1, MAX_ATTEMPTS, next);
    } else if next.attempts >= MAX_ATTEMPTS {
      CountedAppend(d.dead, picks, MAX_ATTEMPTS, MAX_ATTEMPTS, next);
    } else {
      CountedAppend(d.queue, picks, 0, MAX_ATTEMPTS - 1, next);
    }
  }

  lemma HandleCalls(d: Desk, e: Entry, o: Outcome)
    requires CallsBounded(d) && o.calls <= 2
    ensures CallsBounded(Handle(d, e, o))
  {
    var f := Handle(d, e, o);
    forall id ensures Count(f.calls, id) <= 2 * Count(f.picks, id) {
      assert Count(d.calls, id) <= 2 * Count(d.picks, id);
    }
  }

  /** Working on one proposal keeps the invariant. */
  lemma HandleKeeps(d: Desk, e: Entry, rest: seq<Entry>, o: Outcome)
    requires Inv(d, [e] + rest) && o.calls <= 2
    ensures Inv(Handle(d, e, o), rest)
  {
    HandlePlaces(d, e, rest, o);
    HandleCounts(d, e, rest, o);
    HandleCalls(d, e, o);
    Alone(d, e, rest);
  }

  ghost predicate TwoCalls(outcomes: string -> Outcome) {
    forall id :: outcomes(id).calls <= 2
  }

  lemma NextInHand(d: Desk, batch: seq<Entry>, i: nat, o: Outcome)
    requires i < |batch| && Inv(d, batch[i..]) && o.calls <= 2
    ensures Inv(Handle(d, batch[i], o), batch[i + 1..])
  {
    assert batch[i..] == [batch[i]] + batch[i + 1..];
    HandleKeeps(d, batch[i], batch[i + 1..], o);
  }

  lemma {:induction false} HandleAllKeeps(d: Desk, batch: seq<Entry>, i: nat, outcomes: string -> Outcome)
    requires Inv(d, batch) && TwoCalls(outcomes) && i <= |batch|
    ensures Inv(HandleAll(d, batch[..i], outcomes), batch[i..])
    decreases i
  {
    if i == 0 {
      assert batch[0..] == batch;
    } else {
      var j: nat := i - 1;
      HandleAllKeeps(d, batch, j, outcomes);
      HandleOneMore(d, batch, j, outcomes);
      NextInHand(HandleAll(d, batch[..j], outcomes), batch, j, outcomes(batch[j].id));
    }
  }

  lemma TallyThirds(queue: seq<Entry>, n: nat, m: nat, f: Entry -> bool)
    requires n <= m <= |queue|
    ensures Tally(queue, f) == Tally(queue[..n], f) + Tally(queue[n..m], f) + Tally(queue[m..], f)
  {
    assert queue == queue[..n] + queue[n..m] + queue[m..];
    TallyConcat(queue[..n] + queue[n..m], queue[m..], f);
    TallyConcat(queue[..n], queue[n..m], f);
  }

  lemma TakeKeeps(d: Desk, n: nat, m: nat)
    requires Inv(d, []) && n <= m <= |d.queue|
    ensures Inv(Taken(d, n, m), d.queue[..n])
  {
    var f := Taken(d, n, m);
    forall id ensures Places(f, d.queue[..n], id) == One(id in f.recorded) {
      assert Places(d, [], id) == One(id in d.recorded);
      TallyThirds(d.queue, n, m, WithId(id));
      TallyConcat(d.lost, d.queue[n..m], WithId(id));
    }
  }

  lemma BatchKeeps(d: Desk, batch: seq<Entry>, outcomes: string -> Outcome)
    requires Inv(d, batch) && TwoCalls(outcomes)
    ensures Inv(HandleAll(d, batch, outcomes), [])
  {
    HandleAllKeeps(d, batch, |batch|, outcomes);
    assert batch[..|batch|] == batch && batch[|batch|..] == [];
  }

  /** A run keeps the invariant, whatever it meets. */
  lemma DrainKeeps(d: Desk, r: Round)
    requires Inv(d, []) && TwoCalls(r.outcomes)
    ensures Inv(Drained(d, r), [])
  {
    var n := BatchSize(d.queue, r, 0);
    var m := n + Broken(d.queue, r, n);
    TakeKeeps(d, n, m);
    BatchKeeps(Taken(d, n, m), d.queue[..n], r.outcomes);
  }

  lemma RecordKeeps(d: Desk, id: string)
    requires Inv(d, []) && id !in d.recorded
    ensures Inv(Recorded(d, id), [])
  {
    var f := Recorded(d, id);
    forall x ensures Places(f, [], x) == One(x in f.recorded) {
      assert Places(d, [], x) == One(x in d.recorded);
      TallyAppend(d.queue, Entry(id, 0), WithId(x));
    }
    CountedAppend(d.queue, d.picks, 0, MAX_ATTEMPTS - 1, Entry(id, 0));
  }

  // -------------------------------------------------------------------- histories

  datatype Op = Record(id: string) | Drain(round: Round, tries: string -> Try)

  ghost predicate Possible(d: Desk, op: Op) {
    match op
    case Record(id) => id !in d.recorded
    case Drain(r, tries) => ForetellsAll(r.outcomes, tries)
  }

  ghost function Next(d: Desk, op: Op): Desk {
    match op
    case Record(id) => Recorded(d, id)
    case Drain(r, _) => Drained(d, r)
  }

  ghost function After(ops: seq<Op>): Desk {
    if ops == [] then EMPTY else Next(After(ops[..|ops| - 1]), ops[|ops| - 1])
  }

  ghost predicate Legal(ops: seq<Op>) {
    forall i :: 0 <= i < |ops| ==> Possible(After(ops[..i]), ops[i])
  }

  lemma ForetoldCalls(o: Outcome, t: Try)
    requires Foretells(o, t)
    ensures o.calls <= 2
  {
    RemedyIsBounded(LOOP, t);
  }

  lemma StepKeepsInv(d: Desk, op: Op)
    requires Inv(d, []) && Possible(d, op)
    ensures Inv(Next(d, op), [])
  {
    match op
    case Record(id) => RecordKeeps(d, id);
    case Drain(r, tries) =>
      forall id ensures r.outcomes(id).calls <= 2 {
        ForetoldCalls(r.outcomes(id), tries(id));
      }
      DrainKeeps(d, r);
  }

  /** Over any history: each proposal in one place, its attempts equal to the runs that picked it up. */
  lemma {:induction false} EveryHistoryKeepsInv(ops: seq<Op>)
    requires Legal(ops)
    ensures Inv(After(ops), [])
    decreases |ops|
  {
    if ops != [] {
      var n := |ops| - 1;
      forall i | 0 <= i < n ensures Possible(After(ops[..n][..i]), ops[..n][i]) {
        assert ops[..n][..i] == ops[..i];
      }
      EveryHistoryKeepsInv(ops[..n]);
      StepKeepsInv(After(ops[..n]), ops[n]);
    }
  }

  /** A recorded proposal is exactly one of queued, opened, dead-lettered or lost to an unreadable file. */
  lemma ExactlyOneFate(ops: seq<Op>, id: string)
    requires Legal(ops) && id in After(ops).recorded
    ensures var d := After(ops); Times(d.queue, id) + Times(d.proposed, id) + Times(d.dead, id) + Times(d.lost, id) == 1
  {
    EveryHistoryKeepsInv(ops);
    assert Places(After(ops), [], id) == One(id in After(ops).recorded);
  }

  lemma PicksBounded(d: Desk, id: string)
    requires Inv(d, [])
    ensures Count(d.picks, id) <= MAX_ATTEMPTS
  {
    assert Places(d, [], id) == One(id in d.recorded);
    if Times(d.queue, id) > 0 {
      var i := PresentSomewhere(d.queue, id);
    } else if Times(d.proposed, id) > 0 {
      var i := PresentSomewhere(d.proposed, id);
    } else if Times(d.dead, id) > 0 {
      var i := PresentSomewhere(d.dead, id);
    } else if Times(d.lost, id) > 0 {
      var i := PresentSomewhere(d.lost, id);
    }
  }

  /** However many runs there are, a proposal is picked up at most three times and its opener called at most six. */
  lemma SixCallsAtMost(ops: seq<Op>, id: string)
    requires Legal(ops)
    ensures Count(After(ops).picks, id) <= 3 && Count(After(ops).calls, id) <= 6
    ensures Times(After(ops).dead, id) > 0 ==> Count(After(ops).picks, id) == 3
    ensures Times(After(ops).queue, id) > 0 ==> Count(After(ops).picks, id) < 3
  {
    EveryHistoryKeepsInv(ops);
    PicksBounded(After(ops), id);
    PicksByPlace(After(ops), id);
  }

  /** Three pick-ups for what is dead, fewer for what is queued. */
  lemma PicksByPlace(d: Desk, id: string)
    requires Inv(d, [])
    ensures Times(d.dead, id) > 0 ==> Count(d.picks, id) == 3
    ensures Times(d.queue, id) > 0 ==> Count(d.picks, id) < 3
  {
    if Times(d.dead, id) > 0 {
      var i := PresentSomewhere(d.dead, id);
    }
    if Times(d.queue, id) > 0 {
      var i := PresentSomewhere(d.queue, id);
    }
  }

  // -------------------------------------------------------------------- what one run costs

  lemma {:induction false} HandleAllPicks(d: Desk, batch: seq<Entry>, outcomes: string -> Outcome, id: string)
    ensures Count(HandleAll(d, batch, outcomes).picks, id) == Count(d.picks, id) + Times(batch, id)
    ensures HandleAll(d, batch, outcomes).lost == d.lost
    decreases |batch|
  {
    if batch != [] {
      HandleAllPicks(d, batch[..|batch| - 1], outcomes, id);
    }
  }

  /** A run costs each proposal of its batch exactly one attempt, and the others none. */
  lemma RunCostsOneAttempt(d: Desk, r: Round, id: string)
    requires Inv(d, [])
    ensures Count(Drained(d, r).picks, id)
            == Count(d.picks, id) + One(Times(d.queue[..BatchSize(d.queue, r, 0)], id) > 0)
  {
    var n := BatchSize(d.queue, r, 0);
    HandleAllPicks(Taken(d, n, n + Broken(d.queue, r, n)), d.queue[..n], r.outcomes, id);
    AtMostOnce(d, n, id);
  }

  lemma AtMostOnce(d: Desk, n: nat, id: string)
    requires Inv(d, []) && n <= |d.queue|
    ensures Times(d.queue[..n], id) <= 1
  {
    assert Places(d, [], id) == One(id in d.recorded);
    assert d.queue == d.queue[..n] + d.queue[n..];
    TallyConcat(d.queue[..n], d.queue[n..], WithId(id));
  }

  /** The run reaches entry i of the queue: all before it can be read and the limit is not met. */
  ghost predicate Reaches(queue: seq<Entry>, r: Round, i: nat)
    requires i < |queue|
  {
    !Full(r, i) && forall j :: 0 <= j < i ==> r.readable(queue[j].id)
  }

  lemma {:induction false} BatchSizeIs(queue: seq<Entry>, r: Round, n: nat, i: nat)
    requires n <= i < |queue| && forall j :: 0 <= j < n ==> r.readable(queue[j].id)
    ensures BatchSize(queue, r, n) == i && Broken(queue, r, i) == 1 <==>
            Reaches(queue, r, i) && !r.readable(queue[i].id)
    decreases i - n
  {
    if n < i && !Full(r, n) && r.readable(queue[n].id) {
      BatchSizeIs(queue, r, n + 1, i);
    } else if n < i && r.readable(queue[n].id) {
      assert Full(r, i);
    }
  }

  /** What a run drops: nothing, or the entry at which taking the batch broke off. */
  lemma DrainedLost(d: Desk, r: Round)
    ensures var n := BatchSize(d.queue, r, 0); Drained(d, r).lost == d.lost + d.queue[n..n + Broken(d.queue, r, n)]
  {
    var n := BatchSize(d.queue, r, 0);
    HandleAllPicks(Taken(d, n, n + Broken(d.queue, r, n)), d.queue[..n], r.outcomes, "");
  }

  /**
    A run loses a queued proposal exactly when it cannot be read, all before it can, and its place is below
    the limit.
   */
  lemma RunLosesIff(d: Desk, r: Round, i: nat)
    requires Inv(d, []) && i < |d.queue|
    ensures Times(Drained(d, r).lost, d.queue[i].id) > 0 <==> Reaches(d.queue, r, i) && !r.readable(d.queue[i].id)
  {
    var id, n := d.queue[i].id, BatchSize(d.queue, r, 0);
    var gone := d.queue[n..n + Broken(d.queue, r, n)];
    DrainedLost(d, r);
    TallyConcat(d.lost, gone, WithId(id));
    QueuedOnce(d, i);
    BatchSizeIs(d.queue, r, 0, i);
    BatchStops(d.queue, r, 0);
    if Broken(d.queue, r, n) == 1 {
      assert gone == [d.queue[n]];
      TallySingle(d.queue[n], WithId(id));
    } else {
      assert gone == [];
    }
  }

  /** A queued proposal is at one place of the queue and not among the lost. */
  lemma QueuedOnce(d: Desk, i: nat)
    requires Inv(d, []) && i < |d.queue|
    ensures Times(d.lost, d.queue[i].id) == 0
    ensures forall j :: 0 <= j < |d.queue| && d.queue[j].id == d.queue[i].id ==> j == i
  {
    var id := d.queue[i].id;
    assert Places(d, [], id) == One(id in d.recorded);
    TallyZero(d.queue, WithId(id));
    assert WithId(id)(d.queue[i]);
    forall j | 0 <= j < |d.queue| && d.queue[j].id == id ensures j == i {
      if j < i {
        TwiceCounted(d.queue, j, i);
      } else if i < j {
        TwiceCounted(d.queue, i, j);
      }
    }
  }

  lemma {:induction false} TwiceCounted(s: seq<Entry>, i: nat, j: nat)
    requires i < j < |s| && s[i].id == s[j].id
    ensures Times(s, s[i].id) >= 2
    decreases |s|
  {
    var n := |s| - 1;
    if j < n {
      TwiceCounted(s[..n], i, j);
    } else {
      TallyZero(s[..n], WithId(s[i].id));
      assert WithId(s[i].id)(s[..n][i]);
    }
  }

  /** One proposal that cannot be read: the first run over it loses it. */
  lemma UnreadableIsLost(r: Round, id: string)
    requires !r.readable(id) && !Full(r, 0)
    ensures Drained(Recorded(EMPTY, id), r).lost == [Entry(id, 0)] && Drained(Recorded(EMPTY, id), r).queue == []
  {
    var d := Recorded(EMPTY, id);
    assert d.queue == [Entry(id, 0)];
    DrainedLost(d, r);
  }

  /** Op n of a history is a run that loses this proposal. */
  ghost predicate LosesAt(ops: seq<Op>, n: nat, id: string)
    requires n < |ops|
  {
    ops[n].Drain? && exists i :: QueuedUnreadable(After(ops[..n]).queue, ops[n].round, id, i)
  }

  ghost predicate QueuedUnreadable(queue: seq<Entry>, r: Round, id: string, i: nat) {
    i < |queue| && queue[i].id == id && Reaches(queue, r, i) && !r.readable(id)
  }

  lemma StepLosesIff(d: Desk, op: Op, id: string)
    requires Inv(d, []) && Possible(d, op)
    ensures Times(Next(d, op).lost, id) > 0 <==>
            Times(d.lost, id) > 0 || (op.Drain? && exists i :: QueuedUnreadable(d.queue, op.round, id, i))
  {
    if op.Drain? {
      if i :| QueuedUnreadable(d.queue, op.round, id, i) {
        RunLosesIff(d, op.round, i);
      } else {
        OthersNotLost(d, op.round, id);
      }
    }
  }

  lemma OthersNotLost(d: Desk, r: Round, id: string)
    requires forall i :: !QueuedUnreadable(d.queue, r, id, i)
    ensures Times(Drained(d, r).lost, id) == Times(d.lost, id)
  {
    var n := BatchSize(d.queue, r, 0);
    var gone := d.queue[n..n + Broken(d.queue, r, n)];
    DrainedLost(d, r);
    TallyConcat(d.lost, gone, WithId(id));
    if Broken(d.queue, r, n) == 1 {
      BatchStops(d.queue, r, 0);
      BatchSizeIs(d.queue, r, 0, n);
      assert !QueuedUnreadable(d.queue, r, id, n);
      assert gone == [d.queue[n]];
      TallySingle(d.queue[n], WithId(id));
    } else {
      assert gone == [];
    }
  }

  /** Some run of the history reaches this proposal unreadable. */
  ghost predicate EverLost(ops: seq<Op>, id: string) {
    exists n :: 0 <= n < |ops| && LosesAt(ops, n, id)
  }

  lemma EverLostStep(ops: seq<Op>, id: string)
    requires ops != []
    ensures EverLost(ops, id) <==> EverLost(ops[..|ops| - 1], id) || LosesAt(ops, |ops| - 1, id)
  {
    var m := |ops| - 1;
    var front := ops[..m];
    forall n | 0 <= n < m ensures LosesAt(ops, n, id) <==> LosesAt(front, n, id) {
      assert front[..n] == ops[..n];
    }
  }

  /** A proposal is lost exactly when some run of the history reached it unreadable. */
  lemma {:induction false} LostIff(ops: seq<Op>, id: string)
    requires Legal(ops)
    ensures Times(After(ops).lost, id) > 0 <==> EverLost(ops, id)
    decreases |ops|
  {
    if ops != [] {
      var m := |ops| - 1;
      LegalFront(ops);
      EveryHistoryKeepsInv(ops[..m]);
      LostIff(ops[..m], id);
      StepLosesIff(After(ops[..m]), ops[m], id);
      EverLostStep(ops, id);
    }
  }

  lemma LegalFront(ops: seq<Op>)
    requires Legal(ops) && ops != []
    ensures Legal(ops[..|ops| - 1]) && Possible(After(ops[..|ops| - 1]), ops[|ops| - 1])
  {
    var front := ops[..|ops| - 1];
    forall i | 0 <= i < |front| ensures Possible(After(front[..i]), front[i]) {
      assert front[..i] == ops[..i];
    }
  }

  /** Queued, opened or dead-lettered, exactly one of the three, exactly when no run reached the proposal unreadable. */
  lemma ThreeFatesIff(ops: seq<Op>, id: string)
    requires Legal(ops) && id in After(ops).recorded
    ensures var d := After(ops);
      Times(d.queue, id) + Times(d.proposed, id) + Times(d.dead, id) == 1 <==> !EverLost(ops, id)
  {
    ExactlyOneFate(ops, id);
    LostIff(ops, id);
  }

  lemma {:induction false} BatchStops(queue: seq<Entry>, r: Round, n: nat)
    requires n <= |queue|
    ensures var m := BatchSize(queue, r, n); m == |queue| || Full(r, m) || !r.readable(queue[m].id)
    decreases |queue| - n
  {
    if n < |queue| && !Full(r, n) && r.readable(queue[n].id) {
      BatchStops(queue, r, n + 1);
    }
  }

  ghost predicate AtLeast(s: seq<Entry>, lo: nat) {
    forall i :: 0 <= i < |s| ==> s[i].attempts >= lo
  }

  lemma {:induction false} HandleAllRaises(d: Desk, batch: seq<Entry>, outcomes: string -> Outcome, lo: nat)
    requires AtLeast(d.queue, lo + 1) && AtLeast(batch, lo)
    ensures AtLeast(HandleAll(d, batch, outcomes).queue, lo + 1)
    decreases |batch|
  {
    if batch != [] {
      HandleAllRaises(d, batch[..|batch| - 1], outcomes, lo);
    }
  }

  /** A run over the whole queue. */
  ghost predicate Whole(r: Round) {
    r.limit.None? && (forall id :: r.readable(id)) && TwoCalls(r.outcomes)
  }

  lemma WholeRunRaises(d: Desk, r: Round, lo: nat)
    requires Whole(r) && AtLeast(d.queue, lo)
    ensures AtLeast(Drained(d, r).queue, lo + 1)
  {
    BatchStops(d.queue, r, 0);
    var n := BatchSize(d.queue, r, 0);
    assert n == |d.queue|;
    HandleAllRaises(Taken(d, n, n), d.queue[..n], r.outcomes, lo);
  }

  /** Three runs over the whole queue settle every proposal: opened or dead-lettered. */
  lemma ThreeRunsSettle(d: Desk, r1: Round, r2: Round, r3: Round)
    requires Inv(d, []) && Whole(r1) && Whole(r2) && Whole(r3)
    ensures Drained(Drained(Drained(d, r1), r2), r3).queue == []
  {
    var one := Drained(d, r1);
    var two := Drained(one, r2);
    var three := Drained(two, r3);
    WholeRunRaises(d, r1, 0);
    WholeRunRaises(one, r2, 1);
    WholeRunRaises(two, r3, 2);
    DrainKeeps(d, r1);
    DrainKeeps(one, r2);
    DrainKeeps(two, r3);
    NoneLeft(three.queue, three.picks);
  }

  lemma NoneLeft(queue: seq<Entry>, picks: map<string, nat>)
    requires Counted(queue, picks, 0, MAX_ATTEMPTS - 1) && AtLeast(queue, MAX_ATTEMPTS)
    ensures queue == []
  {
    assert Front(queue) >= MAX_ATTEMPTS;
    assert queue == [] || Front(queue) < MAX_ATTEMPTS;
  }

  function Front(queue: seq<Entry>): nat {
    if queue == [] then MAX_ATTEMPTS else queue[0].attempts
  }
}

/** The queue's own operations as runs of the file-operation machine, other processes acting in between. */
module DurableQueueRuns {
  import opened Common
  import opened DurableQueue
  import opened Sorting
  import opened Tallies

  lemma Extend(trace: seq<Event>, e: Event)
    requires Legal(trace) && Enabled(After(trace), e)
    ensures Legal(trace + [e]) && After(trace + [e]) == Next(After(trace), e)
  {
    var longer := trace + [e];
    assert longer[..|longer| - 1] == trace;
  }

  /** No file of this item is, or will be, visible again. */
  ghost predicate Gone(s: State, id: int) {
    Settled(s, id) && id !in s.pending
  }

  lemma GoneStays(s: State, e: Event, id: int)
    requires Enabled(s, e) && Gone(s, id)
    ensures Gone(Next(s, e), id)
  {
  }

  lemma PendingIsSettled(s: State, id: int)
    requires Inv(s) && id in s.pending
    ensures Settled(s, id)
  {
    assert Places(s, id) == One(id in s.issued);
  }

  predicate Moves(e: Event, c: nat) {
    match e
    case PutStart(_, _) => false
    case PutFail(_) => false
    case PutRename(_) => false
    case _ => e.c == c
  }

  lemma OthersLeaveConsumer(s: State, e: Event, c: nat)
    requires Enabled(s, e) && !Moves(e, c)
    ensures At(Next(s, e), c) == At(s, c)
  {
  }

  class SharedQueue {
    var state: State
    ghost var trace: seq<Event>

    ghost predicate Valid()
      reads this
    {
      Legal(trace) && After(trace) == state
    }

    constructor ()
      ensures Valid() && trace == [] && state == START
    {
      state, trace := START, [];
    }

    /** One file operation. */
    method Step(e: Event)
      requires Valid() && Enabled(state, e)
      modifies this
      ensures Valid() && trace == old(trace) + [e] && state == Next(old(state), e)
      ensures forall id :: old(Settled(state, id)) ==> Settled(state, id)
      ensures forall id :: old(Gone(state, id)) ==> Gone(state, id)
    {
      Extend(trace, e);
      forall id | Settled(state, id) ensures Settled(Next(state, e), id) {
        SettledStep(state, e, id);
      }
      forall id | Gone(state, id) ensures Gone(Next(state, e), id) {
        GoneStays(state, e, id);
      }
      state, trace := Next(state, e), trace + [e];
    }

    /** Other processes take the steps of a schedule that are possible when their turn comes. */
    method Others(schedule: seq<Event>, c: nat)
      requires Valid()
      modifies this
      ensures Valid() && old(trace) <= trace
      ensures At(state, c) == old(At(state, c))
      ensures schedule == [] ==> state == old(state)
      ensures forall id :: old(Settled(state, id)) ==> Settled(state, id)
      ensures forall id :: old(Gone(state, id)) ==> Gone(state, id)
    {
      for i := 0 to |schedule|
        invariant Valid() && old(trace) <= trace
        invariant At(state, c) == old(At(state, c))
        invariant schedule == [] ==> state == old(state)
        invariant forall id :: old(Settled(state, id)) ==> Settled(state, id)
        invariant forall id :: old(Gone(state, id)) ==> Gone(state, id)
      {
        var e := schedule[i];
        if Enabled(state, e) && !Moves(e, c) {
          OthersLeaveConsumer(state, e, c);
          Step(e);
        }
      }
    }

    /** `put`: written to a temporary file, then renamed into view or, on any failure, unlinked. */
    method Put(id: int, entry: Entry, fails: bool, meanwhile: seq<Event>) returns (r: Result<int>)
      requires Valid() && id !in state.issued
      requires forall i :: 0 <= i < |meanwhile| ==> meanwhile[i] != PutFail(id) && meanwhile[i] != PutRename(id)
      modifies this
      ensures Valid() && old(trace) <= trace
      ensures r == if fails then Err(TypeError) else Ok(id)
      ensures fails ==> id in state.failed
      ensures !fails ==> id in state.pending && state.pending[id] == entry
    {
      Step(PutStart(id, entry));
      for i := 0 to |meanwhile|
        invariant Valid() && old(trace) <= trace
        invariant id in state.writing && state.writing[id] == entry && id in state.issued
      {
        if Enabled(state, meanwhile[i]) {
          Step(meanwhile[i]);
        }
      }
      if fails {
        Step(PutFail(id));
        return Err(TypeError);
      }
      Step(PutRename(id));
      return Ok(id);
    }

    /** Every file of the snapshot belongs to an item that was put for good. */
    lemma SnapshotSettled(snapshot: seq<int>)
      requires Valid() && snapshot == Sorted(state.pending.Keys)
      ensures forall i :: 0 <= i < |snapshot| ==> snapshot[i] in state.pending && Settled(state, snapshot[i])
    {
      EveryRunKeepsItems(trace);
      forall i | 0 <= i < |snapshot| ensures snapshot[i] in state.pending && Settled(state, snapshot[i]) {
        assert snapshot[i] in snapshot;
        PendingIsSettled(state, snapshot[i]);
      }
    }

    /** `_pending`: the visible files, oldest first. */
    method List(c: nat) returns (snapshot: seq<int>)
      requires Valid() && At(state, c).Idle?
      modifies this
      ensures Valid() && old(trace) <= trace && At(state, c) == Scanning(snapshot)
      ensures state.pending == old(state.pending)
      ensures forall x :: x in snapshot <==> x in state.pending
      ensures if snapshot == [] then state.pending == map[] else IsMinimum(state.pending.Keys, snapshot[0])
      ensures forall j :: 0 <= j < |snapshot| ==> Settled(state, snapshot[j])
    {
      snapshot := Sorted(state.pending.Keys);
      SnapshotSettled(snapshot);
      SortedStartsLowest(state.pending.Keys);
      Step(Scan(c));
    }

    /** One attempt of the claiming loop, after other processes had their turn. */
    method Attempt(c: nat, schedule: seq<Event>)
      requires Valid() && At(state, c).Scanning? && At(state, c).todo != [] && Settled(state, At(state, c).todo[0])
      modifies this
      ensures Valid() && old(trace) <= trace
      ensures forall id :: old(Settled(state, id)) ==> Settled(state, id)
      ensures forall id :: old(Gone(state, id)) ==> Gone(state, id)
      ensures var todo := old(At(state, c)).todo;
        || At(state, c) == Holding(todo[0])
        || (At(state, c) == Scanning(todo[1..]) && Gone(state, todo[0])
            && (schedule == [] ==> todo[0] !in old(state.pending)))
    {
      Others(schedule, c);
      Step(TryClaim(c));
    }

    /** The claiming loop: the first file of the snapshot that is still there, if any. */
    method ClaimFirst(c: nat, snapshot: seq<int>, others: nat -> seq<Event>) returns (i: nat)
      requires Valid() && At(state, c) == Scanning(snapshot)
      requires forall j :: 0 <= j < |snapshot| ==> Settled(state, snapshot[j])
      modifies this
      ensures Valid() && old(trace) <= trace && i <= |snapshot|
      ensures i < |snapshot| ==> At(state, c) == Holding(snapshot[i])
      ensures i == |snapshot| ==> At(state, c) == Scanning([]) && forall j :: 0 <= j < i ==> Gone(state, snapshot[j])
      ensures snapshot != [] && snapshot[0] in old(state.pending) && others(0) == [] ==> i == 0
    {
      i := 0;
      while i < |snapshot|
        invariant i <= |snapshot| && Valid() && old(trace) <= trace
        invariant At(state, c) == Scanning(snapshot[i..])
        invariant i == 0 ==> state == old(state)
        invariant i > 0 ==> others(0) != [] || snapshot[0] !in old(state.pending)
        invariant forall j :: 0 <= j < |snapshot| ==> Settled(state, snapshot[j])
        invariant forall j :: 0 <= j < i ==> Gone(state, snapshot[j])
      {
        Attempt(c, others(i));
        if At(state, c).Holding? {
          return;
        }
        i := i + 1;
      }
    }

    /** `get_nowait`: claim the oldest file of a snapshot that is still there; `others(i)` happens before attempt i. */
    method GetNowait(c: nat, readable: bool, others: nat -> seq<Event>) returns (r: Result<Entry>, id: int)
      requires Valid() && At(state, c).Idle?
      modifies this
      ensures Valid() && old(trace) <= trace && At(state, c).Idle?
      ensures r.Ok? ==> readable && id in old(state.pending) && Delivered(id, r.value)
      ensures r == Err(ValueError) ==> !readable && id in old(state.pending) && id in state.lost
      ensures r.Err? ==> r.error == ValueError || r.error == QueueEmpty
      ensures r == Err(QueueEmpty) ==> forall x :: x in old(state.pending) ==> Gone(state, x)
      ensures old(state.pending) != map[] && others(0) == [] ==>
              r != Err(QueueEmpty) && IsMinimum(old(state.pending.Keys), id)
    {
      var snapshot := List(c);
      var i := ClaimFirst(c, snapshot, others);
      if i < |snapshot| {
        id := snapshot[i];
        r := Take(c, readable);
      } else {
        Step(GiveUp(c));
        r, id := Err(QueueEmpty), 0;
      }
    }

    ghost predicate Delivered(id: int, entry: Entry)
      reads this
    {
      && state.delivered != [] && state.delivered[|state.delivered| - 1] == (id, entry)
      && id in state.issued && state.issued[id] == entry
    }

    /** Read and unlink a claimed file. */
    method Take(c: nat, readable: bool) returns (r: Result<Entry>)
      requires Valid() && At(state, c).Holding?
      modifies this
      ensures Valid() && old(trace) <= trace && At(state, c).Idle?
      ensures readable ==> r.Ok? && Delivered(old(At(state, c)).id, r.value)
      ensures !readable ==> r == Err(ValueError) && old(At(state, c)).id in state.lost
    {
      EveryRunKeepsItems(trace);
      if readable {
        r := Ok(state.claimed[At(state, c).id]);
        Step(Deliver(c));
      } else {
        r := Err(ValueError);
        Step(ReadError(c));
      }
    }
  }

  // -------------------------------------------------------------------- arrival order

  lemma SortedSingleton(id: int)
    ensures Sorted({id}) == [id]
  {
    assert id in Sorted({id});
  }

  /** A run of producers and the lone consumer, without crashes. */
  ghost predicate Calm(trace: seq<Event>) {
    Legal(trace) && LoneRun(trace) && QuietRun(trace)
  }

  lemma ExtendCalm(trace: seq<Event>, e: Event) returns (longer: seq<Event>)
    requires Calm(trace) && Enabled(After(trace), e) && ByLoneConsumer(e) && Quiet(e)
    ensures Calm(longer) && After(longer) == Next(After(trace), e)
  {
    Extend(trace, e);
    longer := trace + [e];
  }

  lemma ScanOnly(s: State, id: int)
    requires At(s, 0).Idle? && s.pending.Keys == {id}
    ensures At(Next(s, Scan(0)), 0) == Scanning([id])
  {
    SortedSingleton(id);
  }

  lemma ClaimOnly(s: State, id: int)
    requires At(s, 0) == Scanning([id]) && s.pending.Keys == {id}
    ensures At(Claim(s, 0), 0) == Holding(id) && Claim(s, 0).pending == map[] && id in Claim(s, 0).claimed
    ensures Claim(s, 0).writing == s.writing && Claim(s, 0).delivered == s.delivered
  {
  }

  lemma HandOnly(s: State, id: int)
    requires At(s, 0) == Holding(id) && id in s.claimed && s.pending == map[]
    ensures Drained(Hand(s, 0)) && Hand(s, 0).writing == s.writing
    ensures Ids(Hand(s, 0).delivered) == Ids(s.delivered) + [id]
  {
  }

  /** The lone consumer takes the one visible item. */
  lemma TakeOnly(trace: seq<Event>, id: int) returns (longer: seq<Event>)
    requires Calm(trace) && At(After(trace), 0).Idle? && After(trace).pending.Keys == {id}
    ensures Calm(longer) && Drained(After(longer)) && After(longer).writing == After(trace).writing
    ensures Ids(After(longer).delivered) == Ids(After(trace).delivered) + [id]
  {
    ScanOnly(After(trace), id);
    var scanned := ExtendCalm(trace, Scan(0));
    ClaimOnly(After(scanned), id);
    var claimed := ExtendCalm(scanned, TryClaim(0));
    HandOnly(After(claimed), id);
    longer := ExtendCalm(claimed, Deliver(0));
  }

  lemma TwoBegun() returns (trace: seq<Event>)
    ensures Calm(trace) && After(trace).writing.Keys == {1, 2} && Drained(After(trace)) && After(trace).delivered == []
  {
    trace := ExtendCalm([], PutStart(1, "a"));
    trace := ExtendCalm(trace, PutStart(2, "b"));
  }

  /** A put that started first but is renamed into view late comes out second. */
  lemma LateRenameReorders() returns (trace: seq<Event>)
    ensures Calm(trace) && Drained(After(trace))
    ensures Ids(After(trace).delivered) == [2, 1]
  {
    trace := TwoBegun();
    trace := ExtendCalm(trace, PutRename(2));
    trace := TakeOnly(trace, 2);
    trace := ExtendCalm(trace, PutRename(1));
    trace := TakeOnly(trace, 1);
  }
}

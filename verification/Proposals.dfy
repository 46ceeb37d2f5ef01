/**
  Opening recorded fix proposals: a control loop per proposal and run, a bounded
  number of runs per proposal, and a dead-letter queue behind them.
 */
module Proposals {
  import opened Common
  import opened ControlLoop

  // -------------------------------------------------------------------- one remediation

  datatype Call = Returned(url: string) | Raised

  /** What one run meets when it works on one proposal. */
  datatype Try = Try(checkoutFails: bool, calls: nat -> Call, start: real, clock: nat -> real)

  const LOOP := Config(2, 30.0, 0.0, 2, "quarantine-escalate")

  /** The captured url after n calls of the opener. */
  function Captured(calls: nat -> Call, n: nat): string {
    if n == 0 then "" else
      match calls(n - 1)
      case Returned(url) => url
      case Raised => Captured(calls, n - 1)
  }

  function Observed(calls: nat -> Call, n: nat): Reading {
    if Captured(calls, n) != "" then Finite(0.0) else Finite(1.0)
  }

  function WorldOf(t: Try): World {
    World((n: nat) => Observed(t.calls, n), t.start, t.clock)
  }

  /** How often a loop so configured calls the opener. */
  function Acts(cfg: Config, t: Try): nat {
    StopsAfter(cfg, WorldOf(t), 0)
  }

  predicate Converges(cfg: Config, t: Try) {
    Report(cfg, WorldOf(t), Acts(cfg, t)).converged
  }

  /** The url the operator gets, empty if there is none. */
  function Url(cfg: Config, t: Try): string {
    Captured(t.calls, Acts(cfg, t))
  }

  /**
    What a remediation hands back: the loop's result, the url, and the safe state, which carries the url if
    there is one.
   */
  datatype Sealed = Sealed(result: LoopResult, url: string, failClosedState: Option<string>)

  const REVIEW := "human-review:"

  function SealedOf(cfg: Config, t: Try): Sealed {
    var r, url := Report(cfg, WorldOf(t), Acts(cfg, t)), Url(cfg, t);
    Sealed(r, url, if !r.converged && url != "" then Some(REVIEW + url) else r.failClosedState)
  }

  predicate Opens(c: Call) {
    c.Returned? && c.url != ""
  }

  lemma {:induction false} CapturedFrom(calls: nat -> Call, n: nat)
    requires Captured(calls, n) != ""
    ensures exists k :: 0 <= k < n && Opens(calls(k))
    decreases n
  {
    if calls(n - 1).Raised? {
      CapturedFrom(calls, n - 1);
    } else {
      assert Opens(calls(n - 1));
    }
  }

  /** The target separates "a pull request exists" (error 0) from "none does" (error 1). */
  predicate Separates(cfg: Config) {
    0.0 <= cfg.target + EPS < 1.0
  }

  lemma OnTargetIff(cfg: Config, t: Try, n: nat)
    requires Separates(cfg)
    ensures OnTarget(cfg, WorldOf(t).observe(n)) <==> Captured(t.calls, n) != ""
  {
    assert WorldOf(t).observe(n) == Observed(t.calls, n);
  }

  /**
    A remediation calls the opener at most max_iterations times.  With a target between the two
    errors it converges exactly when one of those calls gave a url, which it then reports.
   */
  lemma RemedyIsBounded(cfg: Config, t: Try)
    requires Bounded(cfg) && Separates(cfg)
    ensures Acts(cfg, t) <= cfg.maxIterations
    ensures Converges(cfg, t) <==> Url(cfg, t) != ""
    ensures Converges(cfg, t) <==> exists k :: 0 <= k < Acts(cfg, t) && Opens(t.calls(k))
  {
    var w, m := WorldOf(t), Acts(cfg, t);
    ActsAreBounded(cfg, w);
    OnTargetIff(cfg, t, m);
    if Captured(t.calls, m) != "" {
      CapturedFrom(t.calls, m);
    }
    forall k | 0 <= k < m && Opens(t.calls(k)) ensures OnTarget(cfg, w.observe(k + 1)) {
      OnTargetIff(cfg, t, k + 1);
    }
  }

  /** A world whose opener succeeds at every call, in no time. */
  const EASY := Try(false, n => Returned("u"), 0.0, n => 0.0)

  lemma EasyWorld(cfg: Config)
    requires Bounded(cfg) && !Separates(cfg)
    ensures !(Converges(cfg, EASY) <==> Url(cfg, EASY) != "")
  {
    var w, m := WorldOf(EASY), Acts(cfg, EASY);
    assert w.observe(0) == Finite(1.0);
    assert w.observe(m) == Observed(EASY.calls, m);
    if cfg.target + EPS < 0.0 {
      assert Improves(w, 0);
      assert !Stops(cfg, w, 0);
      assert Captured(EASY.calls, m) == "u";
    } else {
      assert Stops(cfg, w, 0);
    }
  }

  /**
    "Converged" and "a url was captured" mean the same in every world exactly when the target separates the
    two errors.
   */
  lemma ConvergedMeansUrlIff(cfg: Config)
    requires Bounded(cfg)
    ensures (forall t :: Converges(cfg, t) <==> Url(cfg, t) != "") <==> Separates(cfg)
  {
    if Separates(cfg) {
      forall t ensures Converges(cfg, t) <==> Url(cfg, t) != "" {
        RemedyIsBounded(cfg, t);
      }
    } else {
      EasyWorld(cfg);
    }
  }

  /** The safe state carries a url exactly when a negative target kept the loop from accepting the one it had. */
  lemma HumanReviewIff(cfg: Config, t: Try)
    requires Bounded(cfg)
    ensures Url(cfg, t) != "" ==> (Converges(cfg, t) <==> 0.0 <= cfg.target + EPS)
    ensures SealedOf(cfg, t).failClosedState
            == (if cfg.target + EPS < 0.0 && Url(cfg, t) != "" then Some(REVIEW + Url(cfg, t))
                else if Converges(cfg, t) then None else Some(cfg.safeState))
  {
    var m := Acts(cfg, t);
    assert WorldOf(t).observe(m) == Observed(t.calls, m);
  }

  /** With target -1 an opener that succeeds ends in human review. */
  lemma NegativeTargetReviews(t: Try)
    requires Opens(t.calls(0)) && t.calls(1) == Raised
    requires !Late(LOOP, WorldOf(t), 0) && !Late(LOOP, WorldOf(t), 1)
    ensures SealedOf(LOOP.(target := -1.0), t).failClosedState == Some(REVIEW + t.calls(0).url)
  {
    var cfg, w := LOOP.(target := -1.0), WorldOf(t);
    assert w.observe(0) == Finite(1.0) && w.observe(1) == Finite(0.0) && w.observe(2) == Finite(0.0);
    assert Improves(w, 0) && Improves(w, 1);
    assert !Stops(cfg, w, 0) && !Stops(cfg, w, 1) && Stops(cfg, w, 2);
    assert StopsAfter(cfg, w, 0) == StopsAfter(cfg, w, 1) == StopsAfter(cfg, w, 2) == 2;
  }

  /** `remediate_via_pr`: drive "a pull request exists" to true; an unbounded loop is refused. */
  method RemediateViaPr(cfg: Config, t: Try) returns (r: Result<Sealed>, calls: nat)
    ensures r == if Bounded(cfg) then Ok(SealedOf(cfg, t)) else Err(ValueError)
    ensures calls == if Bounded(cfg) then Acts(cfg, t) else 0
  {
    var built := Build(cfg);
    if built.Err? {
      return Err(built.error), 0;
    }
    var result;
    result, calls := Run(cfg, WorldOf(t));
    var url := Captured(t.calls, calls);
    var state := result.failClosedState;
    if !result.converged {
      if url != "" {
        state := Some(REVIEW + url);
      }
    }
    r := Ok(Sealed(result, url, state));
  }

  /** Under the default loop, without a deadline in the way: one call when the first succeeds and two otherwise. */
  lemma RemedyCalls(t: Try)
    requires t.clock(0) - t.start <= 30.0 && t.clock(1) - t.start <= 30.0
    ensures Acts(LOOP, t) == if Opens(t.calls(0)) then 1 else 2
  {
    var w := WorldOf(t);
    assert w.observe(0) == Finite(1.0) && w.observe(1) == Observed(t.calls, 1);
    assert Captured(t.calls, 1) != "" <==> Opens(t.calls(0));
    assert Improves(w, 0);
    RemedyIsBounded(LOOP, t);
    assert Best(w, 1) == Finite(1.0);
  }

  // -------------------------------------------------------------------- the desk

  const MAX_ATTEMPTS := 3

  datatype Entry = Entry(id: string, attempts: nat)

  /** The proposal queue, what became of the rest, and how often each proposal was picked up and its opener called. */
  datatype Desk = Desk(recorded: set<string>, queue: seq<Entry>, proposed: seq<Entry>, dead: seq<Entry>,
                       lost: seq<Entry>, picks: map<string, nat>, calls: map<string, nat>)

  const EMPTY := Desk({}, [], [], [], [], map[], map[])

  function Count(m: map<string, nat>, id: string): nat {
    if id in m then m[id] else 0
  }

  /** How the work on one proposal in one run ended. */
  datatype Outcome = Outcome(opens: bool, calls: nat)

  function OutcomeOf(t: Try): (o: Outcome) {
    if t.checkoutFails then Outcome(false, 0) else Outcome(Converges(LOOP, t), Acts(LOOP, t))
  }

  /** How one proposal of a batch is dealt with. */
  function Handle(d: Desk, e: Entry, o: Outcome): Desk {
    var next := Entry(e.id, e.attempts + 1);
    var d := d.(picks := d.picks[e.id := Count(d.picks, e.id) + 1],
                calls := d.calls[e.id := Count(d.calls, e.id) + o.calls]);
    if o.opens then d.(proposed := d.proposed + [next])
    else if next.attempts >= MAX_ATTEMPTS then d.(dead := d.dead + [next])
    else d.(queue := d.queue + [next])
  }

  function HandleAll(d: Desk, batch: seq<Entry>, outcomes: string -> Outcome): Desk {
    if batch == [] then d
    else
      var last := batch[|batch| - 1];
      Handle(HandleAll(d, batch[..|batch| - 1], outcomes), last, outcomes(last.id))
  }

  /** `o` is how the work goes in a world like `t`. */
  ghost predicate Foretells(o: Outcome, t: Try) {
    o == OutcomeOf(t)
  }

  ghost predicate ForetellsAll(outcomes: string -> Outcome, tries: string -> Try) {
    forall id :: Foretells(outcomes(id), tries(id))
  }

  /** A run's limit, which entries can be read back, and how the work on each goes. */
  datatype Round = Round(limit: Option<int>, readable: string -> bool, outcomes: string -> Outcome)

  predicate Full(r: Round, n: nat) {
    r.limit.Some? && n >= r.limit.value
  }

  /** How many entries a run takes, having taken n. */
  function BatchSize(queue: seq<Entry>, r: Round, n: nat): (m: nat)
    requires n <= |queue|
    ensures n <= m <= |queue|
    decreases |queue| - n
  {
    if n == |queue| || Full(r, n) || !r.readable(queue[n].id) then n else BatchSize(queue, r, n + 1)
  }

  /**
    Whether taking the batch breaks off at an entry that cannot be read: it is gone from the queue and not
    in the batch.
   */
  function Broken(queue: seq<Entry>, r: Round, n: nat): nat
    requires n <= |queue|
  {
    if n < |queue| && !Full(r, n) then 1 else 0
  }

  /** The desk once n entries are in the batch and those up to m are gone. */
  function Taken(d: Desk, n: nat, m: nat): Desk
    requires n <= m <= |d.queue|
  {
    d.(queue := d.queue[m..], lost := d.lost + d.queue[n..m])
  }

  function Drained(d: Desk, r: Round): Desk {
    var n := BatchSize(d.queue, r, 0);
    HandleAll(Taken(d, n, n + Broken(d.queue, r, n)), d.queue[..n], r.outcomes)
  }

  function Recorded(d: Desk, id: string): Desk {
    d.(recorded := d.recorded + {id}, queue := d.queue + [Entry(id, 0)])
  }

  datatype Processed = Processed(id: string, proposed: bool, attempts: nat, deadLettered: bool)

  function ResultOf(e: Entry, o: Outcome): Processed {
    Processed(e.id, o.opens, e.attempts + 1, !o.opens && e.attempts + 1 >= MAX_ATTEMPTS)
  }

  /** Each result tells how the work on its proposal ended. */
  ghost predicate Describe(results: seq<Processed>, batch: seq<Entry>, outcomes: string -> Outcome) {
    |results| <= |batch| && forall i :: 0 <= i < |results| ==> results[i] == ResultOf(batch[i], outcomes(batch[i].id))
  }

  lemma DescribeOneMore(results: seq<Processed>, batch: seq<Entry>, outcomes: string -> Outcome)
    requires Describe(results, batch, outcomes) && |results| < |batch|
    ensures Describe(results + [ResultOf(batch[|results|], outcomes(batch[|results|].id))], batch, outcomes)
  {
  }

  lemma HandleOneMore(d: Desk, batch: seq<Entry>, i: nat, outcomes: string -> Outcome)
    requires i < |batch|
    ensures HandleAll(d, batch[..i + 1], outcomes)
            == Handle(HandleAll(d, batch[..i], outcomes), batch[i], outcomes(batch[i].id))
  {
    assert batch[..i + 1][..i] == batch[..i];
  }

  lemma FirstOfRest(queue: seq<Entry>, n: nat)
    requires n < |queue|
    ensures queue[n..][0] == queue[n] && queue[n..][1..] == queue[n + 1..]
    ensures queue[n..n + 1] == [queue[n]] && queue[..n + 1] == queue[..n] + [queue[n]]
  {
  }

  lemma NothingBroken(queue: seq<Entry>, n: nat, lost: seq<Entry>)
    requires n <= |queue|
    ensures lost + queue[n..n] == lost
  {
  }

  class Drainer {
    var desk: Desk

    constructor ()
      ensures desk == EMPTY
    {
      desk := EMPTY;
    }

    method Record(id: string)
      requires id !in desk.recorded
      modifies this
      ensures desk == Recorded(old(desk), id)
    {
      desk := Recorded(desk, id);
    }

    /** Drain into a batch first, so that what fails waits for the next run. */
    method TakeBatch(r: Round) returns (batch: seq<Entry>)
      modifies this
      ensures var queue := old(desk.queue); var n := BatchSize(queue, r, 0);
        batch == queue[..n] && desk == Taken(old(desk), n, n + Broken(queue, r, n))
    {
      batch := [];
      ghost var queue := desk.queue;
      while desk.queue != []
        invariant |batch| <= |queue| && batch == queue[..|batch|]
        invariant desk == old(desk).(queue := queue[|batch|..])
        invariant BatchSize(queue, r, 0) == BatchSize(queue, r, |batch|)
        decreases |desk.queue|
      {
        if r.limit.Some? && |batch| >= r.limit.value {
          break;
        }
        FirstOfRest(queue, |batch|);
        var e := desk.queue[0];
        desk := desk.(queue := desk.queue[1..]);
        if !r.readable(e.id) {
          desk := desk.(lost := desk.lost + [e]);
          return;
        }
        batch := batch + [e];
      }
      NothingBroken(queue, |batch|, desk.lost);
    }

    /** `drain_and_open`: one result per proposal taken. */
    method DrainAndOpen(r: Round, tries: string -> Try) returns (results: seq<Processed>)
      requires ForetellsAll(r.outcomes, tries)
      modifies this
      ensures desk == Drained(old(desk), r)
      ensures |results| == BatchSize(old(desk.queue), r, 0)
      ensures Describe(results, old(desk.queue)[..|results|], r.outcomes)
    {
      ghost var d := desk;
      ghost var n := BatchSize(d.queue, r, 0);
      var batch := TakeBatch(r);
      assert |batch| == n && desk == Taken(d, n, n + Broken(d.queue, r, n));
      results := RemediateAll(batch, tries, r.outcomes);
      assert d.queue[..|results|] == batch;
    }

    method RemediateAll(batch: seq<Entry>, tries: string -> Try, ghost outcomes: string -> Outcome)
      returns (results: seq<Processed>)
      requires ForetellsAll(outcomes, tries)
      modifies this
      ensures desk == HandleAll(old(desk), batch, outcomes)
      ensures |results| == |batch| && Describe(results, batch, outcomes)
    {
      results := [];
      for i := 0 to |batch|
        invariant desk == HandleAll(old(desk), batch[..i], outcomes)
        invariant |results| == i && Describe(results, batch, outcomes)
      {
        HandleOneMore(old(desk), batch, i, outcomes);
        assert Foretells(outcomes(batch[i].id), tries(batch[i].id));
        var result := Remediate(batch[i], tries(batch[i].id), outcomes(batch[i].id));
        DescribeOneMore(results, batch, outcomes);
        results := results + [result];
      }
      assert batch[..|batch|] == batch;
    }

    /** Check out, then remediate; a checkout that fails opens nothing. */
    static method Attempt(t: Try) returns (converged: bool, calls: nat)
      ensures Outcome(converged, calls) == OutcomeOf(t)
    {
      if t.checkoutFails {
        return false, 0;
      }
      var sealed;
      sealed, calls := RemediateViaPr(LOOP, t);
      converged := sealed.value.result.converged;
    }

    method Remediate(entry: Entry, t: Try, ghost o: Outcome) returns (result: Processed)
      requires Foretells(o, t)
      modifies this
      ensures desk == Handle(old(desk), entry, o)
      ensures result == ResultOf(entry, o)
    {
      var converged, calls := Attempt(t);
      result := Settle(entry, Outcome(converged, calls));
    }

    /** File the proposal: opened, dead after the last attempt, or queued again. */
    method Settle(entry: Entry, o: Outcome) returns (result: Processed)
      modifies this
      ensures desk == Handle(old(desk), entry, o)
      ensures result == ResultOf(entry, o)
    {
      var next := Entry(entry.id, entry.attempts + 1);
      desk := desk.(picks := desk.picks[entry.id := Count(desk.picks, entry.id) + 1],
                    calls := desk.calls[entry.id := Count(desk.calls, entry.id) + o.calls]);
      if o.opens {
        desk := desk.(proposed := desk.proposed + [next]);
        return Processed(entry.id, true, next.attempts, false);
      }
      if next.attempts >= MAX_ATTEMPTS {
        desk := desk.(dead := desk.dead + [next]);
        return Processed(entry.id, false, next.attempts, true);
      }
      desk := desk.(queue := desk.queue + [next]);
      return Processed(entry.id, false, next.attempts, false);
    }
  }
}

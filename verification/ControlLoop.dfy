/** The bounded, fail-closed control loop: observe, act, observe again, until on target or told to stop. */
module ControlLoop {
  import opened Common

  const EPS: real := 0.000000000001

  /** An observed error; an observation that raises reads as infinite. */
  datatype Reading = Finite(value: real) | Infinite

  predicate Less(a: Reading, b: Reading) {
    a.Finite? && (b.Finite? ==> a.value < b.value)
  }

  function MinusEps(a: Reading): Reading {
    if a.Finite? then Finite(a.value - EPS) else a
  }

  datatype Config = Config(maxIterations: int, deadline: real, target: real, patience: int, safeState: string)

  datatype Reason = Reached | Exhausted | TooLate | Stuck

  datatype Step = Step(iter: nat, error: Reading, acted: bool)

  datatype LoopResult = LoopResult(converged: bool, iterations: nat, initialError: Reading, finalError: Reading,
                                   trace: seq<Step>, failClosedState: Option<string>, reason: Reason)

  /** The world a loop runs in: the error after n acts, and the time at the deadline check of round n. */
  datatype World = World(observe: nat -> Reading, start: real, clock: nat -> real)

  predicate Bounded(cfg: Config) {
    cfg.maxIterations >= 1 && cfg.deadline > 0.0 && cfg.patience >= 1
  }

  /** A loop that is not bounded is refused. */
  function Build(cfg: Config): Result<Config> {
    if cfg.maxIterations < 1 then Err(ValueError)
    else if cfg.deadline <= 0.0 then Err(ValueError)
    else if cfg.patience < 1 then Err(ValueError)
    else Ok(cfg)
  }

  // -------------------------------------------------------------------- reference

  predicate OnTarget(cfg: Config, e: Reading) {
    e.Finite? && e.value <= cfg.target + EPS
  }

  predicate Late(cfg: Config, w: World, n: nat) {
    w.clock(n) - w.start > cfg.deadline
  }

  /** The best reading among the first n, counting only clear improvements. */
  function Best(w: World, n: nat): Reading {
    if n == 0 then Infinite
    else if Less(w.observe(n - 1), MinusEps(Best(w, n - 1))) then w.observe(n - 1)
    else Best(w, n - 1)
  }

  predicate Improves(w: World, n: nat) {
    Less(w.observe(n), MinusEps(Best(w, n)))
  }

  /** How many readings in a row, ending with the first n, failed to improve. */
  function Stall(w: World, n: nat): nat {
    if n == 0 || Improves(w, n - 1) then 0 else Stall(w, n - 1) + 1
  }

  predicate Stops(cfg: Config, w: World, n: nat) {
    || OnTarget(cfg, w.observe(n))
    || n >= cfg.maxIterations
    || Late(cfg, w, n)
    || Stall(w, n + 1) >= cfg.patience
  }

  function WhyStopped(cfg: Config, w: World, n: nat): Reason {
    if OnTarget(cfg, w.observe(n)) then Reached
    else if n >= cfg.maxIterations then Exhausted
    else if Late(cfg, w, n) then TooLate
    else Stuck
  }

  /** The number of acts after which the loop stops, from round n on. */
  function StopsAfter(cfg: Config, w: World, n: nat): (m: nat)
    ensures n <= m && Stops(cfg, w, m)
    ensures forall k :: n <= k < m ==> !Stops(cfg, w, k)
    decreases cfg.maxIterations - n
  {
    if Stops(cfg, w, n) then n else StopsAfter(cfg, w, n + 1)
  }

  /** The trace of rounds 0 to n, the last one without an act. */
  function Trace(w: World, n: nat): (t: seq<Step>)
    ensures |t| == n + 1
  {
    Acted(w, n) + [Step(n, w.observe(n), false)]
  }

  function Acted(w: World, n: nat): (t: seq<Step>)
    ensures |t| == n
  {
    seq(n, i requires 0 <= i < n => Step(i, w.observe(i), true))
  }

  /** What the loop reports when it stops after m acts. */
  function Report(cfg: Config, w: World, m: nat): LoopResult {
    var e := w.observe(m);
    LoopResult(OnTarget(cfg, e), m + 1, w.observe(0), e, Trace(w, m),
               if OnTarget(cfg, e) then None else Some(cfg.safeState), WhyStopped(cfg, w, m))
  }

  // -------------------------------------------------------------------- the loop

  /** The loop acts until the first round at which it must stop, and reports what it saw. */
  method Run(cfg: Config, w: World) returns (r: LoopResult, acts: nat)
    requires Bounded(cfg)
    ensures acts == StopsAfter(cfg, w, 0)
    ensures r == Report(cfg, w, acts)
  {
    var trace: seq<Step> := [];
    var err := w.observe(0);
    var initial := err;
    var best := Infinite;
    var stall, i: nat := 0, 0;
    var converged := false;
    var reason;
    while true
      invariant err == w.observe(i) && trace == Acted(w, i) && !converged
      invariant best == Best(w, i) && stall == Stall(w, i)
      invariant StopsAfter(cfg, w, 0) == StopsAfter(cfg, w, i)
      decreases cfg.maxIterations - i
    {
      trace := trace + [Step(i, err, false)];
      if OnTarget(cfg, err) {
        converged, reason := true, Reached;
        break;
      }
      if i >= cfg.maxIterations {
        reason := Exhausted;
        break;
      }
      if w.clock(i) - w.start > cfg.deadline {
        reason := TooLate;
        break;
      }
      if Less(err, MinusEps(best)) {
        best, stall := err, 0;
      } else {
        stall := stall + 1;
        if stall >= cfg.patience {
          reason := Stuck;
          break;
        }
      }
      trace := trace[i := Step(i, err, true)];
      i := i + 1;
      err := w.observe(i);
    }
    if OnTarget(cfg, err) {
      converged := true;
    }
    r := LoopResult(converged, |trace|, initial, err, trace, if converged then None else Some(cfg.safeState), reason);
    acts := i;
  }

  // -------------------------------------------------------------------- what the report means

  /** Never more acts than allowed; converged exactly when the last observation is on target, the first that is. */
  lemma ActsAreBounded(cfg: Config, w: World)
    requires Bounded(cfg)
    ensures var m := StopsAfter(cfg, w, 0); var r := Report(cfg, w, m);
      && m <= cfg.maxIterations && |r.trace| == r.iterations == m + 1
      && (r.converged <==> OnTarget(cfg, r.finalError))
      && (r.converged <==> r.finalError.Finite? && r.finalError.value <= cfg.target + 0.000000000001)
      && r.initialError == w.observe(0) && r.finalError == w.observe(m)
      && (r.converged <==> r.failClosedState.None?)
      && (r.converged <==> exists n: nat :: n <= m && OnTarget(cfg, w.observe(n)))
      && (forall n :: 0 <= n < m ==> !OnTarget(cfg, w.observe(n)))
  {
    var m := StopsAfter(cfg, w, 0);
    if m > 0 {
      assert !Stops(cfg, w, m - 1);
    }
    forall n | 0 <= n < m ensures !OnTarget(cfg, w.observe(n)) {
      assert !Stops(cfg, w, n);
    }
  }

  /** Reading n is on target and nothing stops the loop before it. */
  ghost predicate ReachedAt(cfg: Config, w: World, n: nat) {
    && n <= cfg.maxIterations && OnTarget(cfg, w.observe(n))
    && forall k :: 0 <= k < n ==> !Late(cfg, w, k) && Stall(w, k + 1) < cfg.patience
  }

  /** The loop converges exactly when the error comes on target before any other bound strikes. */
  lemma ConvergesIff(cfg: Config, w: World)
    requires Bounded(cfg)
    ensures Report(cfg, w, StopsAfter(cfg, w, 0)).converged <==> exists n: nat :: ReachedAt(cfg, w, n)
  {
    var m := StopsAfter(cfg, w, 0);
    ActsAreBounded(cfg, w);
    if Report(cfg, w, m).converged {
      forall k | 0 <= k < m ensures !Late(cfg, w, k) && Stall(w, k + 1) < cfg.patience {
        assert !Stops(cfg, w, k);
      }
      assert ReachedAt(cfg, w, m);
    }
    if n: nat :| ReachedAt(cfg, w, n) {
      assert Stops(cfg, w, n);
      assert m <= n && Stops(cfg, w, m);
      assert m < n ==> !Late(cfg, w, m) && Stall(w, m + 1) < cfg.patience;
    }
  }

  /** The patience guard counts exactly the readings in a row that did not improve. */
  lemma {:induction false} StallCounts(w: World, n: nat, p: nat)
    ensures Stall(w, n) >= p <==> p <= n && forall j :: n - p <= j < n ==> !Improves(w, j)
    decreases n
  {
    if n > 0 && p > 0 {
      StallCounts(w, n - 1, p - 1);
    }
  }

  lemma {:induction false} BestIsAReading(w: World, n: nat)
    ensures Best(w, n).Infinite? || exists b :: 0 <= b < n && w.observe(b) == Best(w, n)
    decreases n
  {
    if n > 0 {
      BestIsAReading(w, n - 1);
    }
  }

  lemma {:induction false} BestHolds(w: World, m: nat, n: nat)
    requires m <= n && forall j :: m <= j < n ==> !Improves(w, j)
    ensures Best(w, n) == Best(w, m)
    decreases n
  {
    if m < n {
      BestHolds(w, m, n - 1);
      assert !Improves(w, n - 1);
    }
  }

  /** Refusing to go on as stuck means: some earlier reading was not beaten by any of the last `patience`. */
  lemma StuckMeansNoProgress(cfg: Config, w: World, j: nat)
    requires Bounded(cfg) && Report(cfg, w, StopsAfter(cfg, w, 0)).reason == Stuck
    requires StopsAfter(cfg, w, 0) + 1 - cfg.patience <= j <= StopsAfter(cfg, w, 0)
    ensures StopsAfter(cfg, w, 0) + 1 >= cfg.patience
    ensures w.observe(j).Infinite?
         || exists b :: 0 <= b < StopsAfter(cfg, w, 0) + 1 - cfg.patience && !Less(w.observe(j), MinusEps(w.observe(b)))
  {
    var n, p := StopsAfter(cfg, w, 0) + 1, cfg.patience;
    StallCounts(w, n, p);
    assert !Improves(w, j);
    BestHolds(w, n - p, j);
    BestIsAReading(w, n - p);
  }
}

/**
  The threat controller: resolve a mesh-wide signal from a quorum of vantage
  reports, turn it into a raw level, and move the level in force up at once but
  down only after sustained calm.
 */
module MeshThreat {
  datatype Level = Calm | Elevated | Hostile

  function Rank(level: Level): int {
    match level
    case Calm => 0
    case Elevated => 1
    case Hostile => 2
  }

  datatype Report = Report(vantage: string, unreachable: real, anomalies: int, partition: bool)

  datatype Signals = Signals(unreachable: real, anomalies: int, partition: bool, vantages: nat)

  datatype Policy = Policy(tierOf: Level -> string, elevatedUnreachable: real, elevatedAnomalies: int,
                           hostileUnreachable: real, hostileAnomalies: int, deescalateDwell: int)

  // ----------------------------------------------------------------------- median

  predicate NonDecreasing(s: seq<real>) {
    forall i, j :: 0 <= i < j < |s| ==> s[i] <= s[j]
  }

  function Insert(x: real, s: seq<real>): seq<real> {
    if s == [] || x <= s[0] then [x] + s else [s[0]] + Insert(x, s[1..])
  }

  function Sort(s: seq<real>): seq<real> {
    if s == [] then [] else Insert(s[0], Sort(s[1..]))
  }

  /** The middle of the sorted values, or the mean of the two middles. */
  function Median(s: seq<real>): real
    requires s != []
  {
    SortLength(s);
    var r, n := Sort(s), |s|;
    if n % 2 == 1 then r[n / 2] else (r[n / 2 - 1] + r[n / 2]) / 2.0
  }

  lemma {:induction false} InsertLength(x: real, s: seq<real>)
    ensures |Insert(x, s)| == |s| + 1
  {
    if s != [] && x > s[0] {
      InsertLength(x, s[1..]);
    }
  }

  lemma {:induction false} SortLength(s: seq<real>)
    ensures |Sort(s)| == |s|
  {
    if s != [] {
      SortLength(s[1..]);
      InsertLength(s[0], Sort(s[1..]));
    }
  }

  /** How many values are below (respectively above) a bound. */
  function Below(s: seq<real>, t: real): nat {
    if s == [] then 0 else (if s[0] < t then 1 else 0) + Below(s[1..], t)
  }

  function Above(s: seq<real>, t: real): nat {
    if s == [] then 0 else (if s[0] > t then 1 else 0) + Above(s[1..], t)
  }

  lemma {:induction false} InsertCounts(x: real, s: seq<real>, t: real)
    ensures Below(Insert(x, s), t) == Below([x] + s, t)
    ensures Above(Insert(x, s), t) == Above([x] + s, t)
  {
    assert ([x] + s)[1..] == s;
    if s != [] && x > s[0] {
      InsertCounts(x, s[1..], t);
      assert ([x] + s[1..])[1..] == s[1..];
      assert ([s[0]] + Insert(x, s[1..]))[1..] == Insert(x, s[1..]);
    }
  }

  lemma {:induction false} SortCounts(s: seq<real>, t: real)
    ensures Below(Sort(s), t) == Below(s, t) && Above(Sort(s), t) == Above(s, t)
  {
    if s != [] {
      SortCounts(s[1..], t);
      InsertCounts(s[0], Sort(s[1..]), t);
      assert ([s[0]] + Sort(s[1..]))[1..] == Sort(s[1..]);
    }
  }

  lemma {:induction false} InsertAscending(x: real, s: seq<real>)
    requires NonDecreasing(s)
    ensures NonDecreasing(Insert(x, s))
    ensures forall y :: y in Insert(x, s) ==> y == x || y in s
  {
    if s != [] && x > s[0] {
      InsertAscending(x, s[1..]);
      var r := Insert(x, s[1..]);
      forall i | 0 <= i < |r| ensures s[0] <= r[i] {
        assert r[i] in r;
      }
    }
  }

  lemma {:induction false} SortAscending(s: seq<real>)
    ensures NonDecreasing(Sort(s))
  {
    if s != [] {
      SortAscending(s[1..]);
      InsertAscending(s[0], Sort(s[1..]));
    }
  }

  lemma {:induction false} AscendingBelow(s: seq<real>, j: nat, t: real)
    requires NonDecreasing(s) && j < |s| && s[j] < t
    ensures Below(s, t) >= j + 1
    decreases j
  {
    if j > 0 {
      assert s[0] <= s[j];
      AscendingBelow(s[1..], j - 1, t);
    }
  }

  lemma {:induction false} AscendingAbove(s: seq<real>, j: nat, t: real)
    requires NonDecreasing(s) && j < |s| && s[j] > t
    ensures Above(s, t) >= |s| - j
    decreases |s|
  {
    if j > 0 {
      AscendingAbove(s[1..], j - 1, t);
    } else if |s| > 1 {
      assert s[0] <= s[1];
      AscendingAbove(s[1..], 0, t);
    }
  }

  /** With fewer than half of the values outside on either side, the median is inside. */
  lemma MedianBetween(s: seq<real>, lo: real, hi: real)
    requires s != [] && lo <= hi && 2 * Below(s, lo) < |s| && 2 * Above(s, hi) < |s|
    ensures lo <= Median(s) <= hi
  {
    var a, b := MedianMiddles(s);
    SortAscending(s);
    SortCounts(s, lo);
    SortCounts(s, hi);
    MiddleNotBelow(Sort(s), a, lo);
    MiddleNotAbove(Sort(s), b, hi);
  }

  /** The median lies between the two middles, which coincide if there is one. */
  lemma MedianMiddles(s: seq<real>) returns (a: nat, b: nat)
    requires s != []
    ensures |Sort(s)| == |s| && a <= b < |s| && 2 * a + 2 >= |s| && 2 * b <= |s|
    ensures Sort(s)[a] <= Median(s) <= Sort(s)[b]
  {
    SortLength(s);
    SortAscending(s);
    a, b := (|s| - 1) / 2, |s| / 2;
    MeanBetween(Sort(s)[a], Sort(s)[b]);
  }

  lemma MeanBetween(x: real, y: real)
    requires x <= y
    ensures x <= (x + y) / 2.0 <= y
  {
  }

  lemma MiddleNotBelow(r: seq<real>, a: nat, lo: real)
    requires NonDecreasing(r) && a < |r| && 2 * Below(r, lo) < |r| && 2 * a + 1 >= |r| - 1
    ensures r[a] >= lo
  {
    if r[a] < lo {
      AscendingBelow(r, a, lo);
    }
  }

  lemma MiddleNotAbove(r: seq<real>, b: nat, hi: real)
    requires NonDecreasing(r) && b < |r| && 2 * Above(r, hi) < |r| && 2 * b <= |r|
    ensures r[b] <= hi
  {
    if r[b] > hi {
      AscendingAbove(r, b, hi);
    }
  }

  // ------------------------------------------------------------------ aggregation

  function Unreachables(reports: seq<Report>): (s: seq<real>)
    ensures |s| == |reports|
  {
    if reports == [] then [] else [reports[0].unreachable] + Unreachables(reports[1..])
  }

  function Anomalies(reports: seq<Report>): (s: seq<real>)
    ensures |s| == |reports|
  {
    if reports == [] then [] else [reports[0].anomalies as real] + Anomalies(reports[1..])
  }

  function Suspicions(reports: seq<Report>): nat {
    if reports == [] then 0 else (if reports[0].partition then 1 else 0) + Suspicions(reports[1..])
  }

  /** Toward zero. */
  function Truncate(x: real): int {
    if x >= 0.0 then x.Floor else -((-x).Floor)
  }

  const BLIND := Signals(1.0, 1_000_000_000, true, 0)

  /** Medians of the reports and a majority on partition; short of a quorum the signal is blind. */
  function Aggregate(reports: seq<Report>, quorum: int): Signals {
    if |reports| < quorum || reports == [] then BLIND
    else Signals(Median(Unreachables(reports)), Truncate(Median(Anomalies(reports))),
                 2 * Suspicions(reports) > |reports|, |reports|)
  }

  function RawLevel(s: Signals, policy: Policy): Level {
    if s.vantages == 0 then Hostile
    else if s.partition || s.unreachable >= policy.hostileUnreachable || s.anomalies >= policy.hostileAnomalies then
      Hostile
    else if s.unreachable >= policy.elevatedUnreachable || s.anomalies >= policy.elevatedAnomalies then Elevated
    else Calm
  }

  /** Which reports are honest; the others may say anything. */
  function Liars(honest: seq<bool>): nat {
    if honest == [] then 0 else (if honest[0] then 0 else 1) + Liars(honest[1..])
  }

  /** What the honest reports have in common. */
  datatype Honest = Honest(lo: real, hi: real, least: int, most: int, allSuspect: bool, someSuspect: bool)

  ghost predicate Bounds(reports: seq<Report>, honest: seq<bool>, h: Honest) {
    && |honest| == |reports|
    && forall i :: 0 <= i < |reports| && honest[i] ==>
         && h.lo <= reports[i].unreachable <= h.hi
         && h.least <= reports[i].anomalies <= h.most
         && (h.allSuspect ==> reports[i].partition) && (reports[i].partition ==> h.someSuspect)
  }

  /** Only liars can be outside the honest range. */
  lemma {:induction false} OutsideAreLiars(reports: seq<Report>, honest: seq<bool>, h: Honest)
    requires Bounds(reports, honest, h)
    ensures Below(Unreachables(reports), h.lo) <= Liars(honest) && Above(Unreachables(reports), h.hi) <= Liars(honest)
    ensures Below(Anomalies(reports), h.least as real) <= Liars(honest)
    ensures Above(Anomalies(reports), h.most as real) <= Liars(honest)
    ensures h.allSuspect ==> Suspicions(reports) + Liars(honest) >= |reports|
    ensures !h.someSuspect ==> Suspicions(reports) <= Liars(honest)
    decreases |reports|
  {
    if reports != [] {
      OutsideAreLiars(reports[1..], honest[1..], h);
    }
  }

  lemma TruncateBetween(x: real, least: int, most: int)
    requires least as real <= x <= most as real
    ensures least <= Truncate(x) <= most
  {
  }

  /** Fewer than half of a quorum lying: every resolved signal stays within the honest range. */
  lemma LiarsCannotMoveSignals(reports: seq<Report>, honest: seq<bool>, quorum: int, h: Honest)
    requires Bounds(reports, honest, h) && h.lo <= h.hi && h.least <= h.most
    requires reports != [] && |reports| >= quorum && 2 * Liars(honest) < |reports|
    ensures var s := Aggregate(reports, quorum);
            && h.lo <= s.unreachable <= h.hi && h.least <= s.anomalies <= h.most
            && (h.allSuspect ==> s.partition) && (s.partition ==> h.someSuspect) && s.vantages > 0
  {
    OutsideAreLiars(reports, honest, h);
    MedianBetween(Unreachables(reports), h.lo, h.hi);
    MedianBetween(Anomalies(reports), h.least as real, h.most as real);
    TruncateBetween(Median(Anomalies(reports)), h.least, h.most);
  }

  lemma RawLevelMonotone(s: Signals, s': Signals, policy: Policy)
    requires s.unreachable <= s'.unreachable && s.anomalies <= s'.anomalies && (s.partition ==> s'.partition)
    requires s.vantages > 0 && s'.vantages > 0
    ensures Rank(RawLevel(s, policy)) <= Rank(RawLevel(s', policy))
  {
  }

  /** The raw level lies between the levels of the mildest and the worst honest view. */
  lemma LiarsCannotMoveLevel(reports: seq<Report>, honest: seq<bool>, quorum: int, h: Honest, policy: Policy)
    requires Bounds(reports, honest, h) && h.lo <= h.hi && h.least <= h.most
    requires reports != [] && |reports| >= quorum && 2 * Liars(honest) < |reports|
    ensures Rank(RawLevel(Signals(h.lo, h.least, h.allSuspect, |reports|), policy))
            <= Rank(RawLevel(Aggregate(reports, quorum), policy))
            <= Rank(RawLevel(Signals(h.hi, h.most, h.someSuspect, |reports|), policy))
  {
    LiarsCannotMoveSignals(reports, honest, quorum, h);
    RawLevelMonotone(Signals(h.lo, h.least, h.allSuspect, |reports|), Aggregate(reports, quorum), policy);
    RawLevelMonotone(Aggregate(reports, quorum), Signals(h.hi, h.most, h.someSuspect, |reports|), policy);
  }

  // ------------------------------------------------------------------- the controller

  datatype Actuation = AutoEscalate | Hold | ProposeDeescalate(proposed: Level, proposedTier: string)

  datatype Assessment = Assessment(level: Level, tier: string, actuation: Actuation)

  function Assess(s: Signals, previous: Level, calmDwell: int, policy: Policy): Assessment {
    var raw := RawLevel(s, policy);
    if Rank(raw) > Rank(previous) then Assessment(raw, policy.tierOf(raw), AutoEscalate)
    else if Rank(raw) < Rank(previous) && calmDwell >= policy.deescalateDwell then
      Assessment(previous, policy.tierOf(previous), ProposeDeescalate(raw, policy.tierOf(raw)))
    else Assessment(previous, policy.tierOf(previous), Hold)
  }

  datatype ThreatState = ThreatState(level: Level, calmDwell: int)

  function Step(reports: seq<Report>, state: ThreatState, policy: Policy, quorum: int): (ThreatState, Assessment) {
    var s := Aggregate(reports, quorum);
    var a := Assess(s, state.level, state.calmDwell, policy);
    match a.actuation
    case AutoEscalate => (ThreatState(a.level, 0), a)
    case ProposeDeescalate(proposed, _) => (ThreatState(proposed, 0), a)
    case Hold =>
      var streak := if Rank(RawLevel(s, policy)) < Rank(state.level) then state.calmDwell + 1 else 0;
      (ThreatState(state.level, streak), a)
  }

  /** The raw level a cycle resolves. */
  function Raw(reports: seq<Report>, policy: Policy, quorum: int): Level {
    RawLevel(Aggregate(reports, quorum), policy)
  }

  /** The next state, as a function of the raw level alone. */
  function Next(raw: Level, state: ThreatState, dwell: int): ThreatState {
    if Rank(raw) > Rank(state.level) then ThreatState(raw, 0)
    else if Rank(raw) < Rank(state.level) then
      if state.calmDwell >= dwell then ThreatState(raw, 0) else ThreatState(state.level, state.calmDwell + 1)
    else ThreatState(state.level, 0)
  }

  lemma StepIsNext(reports: seq<Report>, state: ThreatState, policy: Policy, quorum: int)
    ensures Step(reports, state, policy, quorum).0 == Next(Raw(reports, policy, quorum), state, policy.deescalateDwell)
  {
  }

  /** A run of control cycles from dwell zero, with the raw level each cycle resolves. */
  ghost predicate Run(states: seq<ThreatState>, cycles: seq<seq<Report>>, raws: seq<Level>, policy: Policy, quorum: int)
  {
    && |states| == |cycles| + 1 && |raws| == |cycles|
    && states[0].calmDwell == 0
    && (forall i :: 0 <= i < |cycles| ==> raws[i] == Raw(cycles[i], policy, quorum))
    && (forall i :: 0 <= i < |cycles| ==> states[i + 1] == Step(cycles[i], states[i], policy, quorum).0)
  }

  /** The same run seen through its raw levels. */
  ghost predicate Follows(states: seq<ThreatState>, raws: seq<Level>, dwell: int) {
    && |states| == |raws| + 1
    && states[0].calmDwell == 0
    && forall i :: 0 <= i < |raws| ==> states[i + 1] == Next(raws[i], states[i], dwell)
  }

  lemma RunFollows(states: seq<ThreatState>, cycles: seq<seq<Report>>, raws: seq<Level>, policy: Policy, quorum: int)
    requires Run(states, cycles, raws, policy, quorum)
    ensures Follows(states, raws, policy.deescalateDwell)
  {
    forall i | 0 <= i < |raws| ensures states[i + 1] == Next(raws[i], states[i], policy.deescalateDwell) {
      StepIsNext(cycles[i], states[i], policy, quorum);
    }
  }

  /** In cycle i the raw level was below the level in force. */
  ghost predicate Calmer(states: seq<ThreatState>, raws: seq<Level>, i: nat)
    requires i < |raws| && |states| == |raws| + 1
  {
    Rank(raws[i]) < Rank(states[i].level)
  }

  /** The last n cycles before i all ran at the level of state i and were all calmer than it. */
  ghost predicate CalmStreak(states: seq<ThreatState>, raws: seq<Level>, i: nat, n: int)
    requires i <= |raws| && |states| == |raws| + 1
  {
    n <= i && forall j :: 0 <= j < i && i - n <= j ==> states[j].level == states[i].level && Calmer(states, raws, j)
  }

  /** The level in force is never below what the cycle just resolved. */
  lemma LevelCoversRaw(states: seq<ThreatState>, cycles: seq<seq<Report>>, raws: seq<Level>, policy: Policy,
                       quorum: int, i: nat)
    requires Run(states, cycles, raws, policy, quorum) && i < |cycles|
    ensures Rank(states[i + 1].level) >= Rank(raws[i])
  {
    StepIsNext(cycles[i], states[i], policy, quorum);
  }

  /** Short of a quorum, or without reports, the level in force is hostile. */
  lemma BlindIsHostile(states: seq<ThreatState>, cycles: seq<seq<Report>>, raws: seq<Level>, policy: Policy,
                       quorum: int, i: nat)
    requires Run(states, cycles, raws, policy, quorum) && i < |cycles| && (|cycles[i]| < quorum || cycles[i] == [])
    ensures states[i + 1].level == Hostile
  {
    LevelCoversRaw(states, cycles, raws, policy, quorum, i);
  }

  /** The dwell counts the calm cycles at the current level. */
  lemma {:induction false} DwellIsStreak(states: seq<ThreatState>, raws: seq<Level>, dwell: int, i: nat)
    requires Follows(states, raws, dwell) && i <= |raws|
    ensures 0 <= states[i].calmDwell <= i
    ensures CalmStreak(states, raws, i, states[i].calmDwell)
    decreases i
  {
    if i > 0 {
      DwellIsStreak(states, raws, dwell, i - 1);
      assert states[i - 1 + 1] == Next(raws[i - 1], states[i - 1], dwell);
    }
  }

  lemma {:induction false} StreakIsDwell(states: seq<ThreatState>, raws: seq<Level>, dwell: int, i: nat, n: nat)
    requires Follows(states, raws, dwell) && i <= |raws| && CalmStreak(states, raws, i, n)
    ensures n <= states[i].calmDwell
    decreases i
  {
    DwellIsStreak(states, raws, dwell, i);
    if n > 0 {
      assert states[i - 1].level == states[i].level && Calmer(states, raws, i - 1);
      assert states[i - 1 + 1] == Next(raws[i - 1], states[i - 1], dwell);
      StreakIsDwell(states, raws, dwell, i - 1, n - 1);
    }
  }

  /**
    The level falls in cycle i exactly when cycle i and the deescalateDwell
    cycles before it all ran at this level with the raw level below it.
   */
  lemma FallsExactlyAfterDwell(states: seq<ThreatState>, cycles: seq<seq<Report>>, raws: seq<Level>, policy: Policy,
                               quorum: int, i: nat)
    requires Run(states, cycles, raws, policy, quorum) && i < |cycles|
    ensures Rank(states[i + 1].level) < Rank(states[i].level)
            <==> Calmer(states, raws, i) && CalmStreak(states, raws, i, policy.deescalateDwell)
  {
    var d := policy.deescalateDwell;
    RunFollows(states, cycles, raws, policy, quorum);
    FallsAfterDwell(states, raws, d, i);
  }

  lemma FallsAfterDwell(states: seq<ThreatState>, raws: seq<Level>, d: int, i: nat)
    requires Follows(states, raws, d) && i < |raws|
    ensures Rank(states[i + 1].level) < Rank(states[i].level) <==>
            Calmer(states, raws, i) && CalmStreak(states, raws, i, d)
  {
    DwellIsStreak(states, raws, d, i);
    assert states[i + 1] == Next(raws[i], states[i], d);
    if CalmStreak(states, raws, i, d) && d >= 0 {
      StreakIsDwell(states, raws, d, i, d);
    }
    if d <= states[i].calmDwell {
      assert CalmStreak(states, raws, i, d);
    }
  }
}

/** The level a cycle resolves, told by counting reports against the thresholds of the policy. */
module ThreatVotes {
  import opened MeshThreat
  import opened Tallies

  // ------------------------------------------------------------------ votes

  function Suspects(): Report -> bool {
    (r: Report) => r.partition
  }

  function CutOff(t: real): Report -> bool {
    (r: Report) => r.unreachable >= t
  }

  function Alarmed(t: int): Report -> bool {
    (r: Report) => r.anomalies >= t
  }

  /** More than half of the reports. */
  ghost predicate Most(reports: seq<Report>, f: Report -> bool) {
    2 * Tally(reports, f) > |reports|
  }

  /** Fewer than half of the reports. */
  ghost predicate Few(reports: seq<Report>, f: Report -> bool) {
    2 * Tally(reports, f) < |reports|
  }

  ghost predicate VotedHostile(reports: seq<Report>, policy: Policy) {
    || Most(reports, Suspects())
    || Most(reports, CutOff(policy.hostileUnreachable))
    || Most(reports, Alarmed(policy.hostileAnomalies))
  }

  ghost predicate VotedElevated(reports: seq<Report>, policy: Policy) {
    Most(reports, CutOff(policy.elevatedUnreachable)) || Most(reports, Alarmed(policy.elevatedAnomalies))
  }

  /** Fewer than half on either count, and no majority that suspects a partition. */
  ghost predicate RejectedHostile(reports: seq<Report>, policy: Policy) {
    && !Most(reports, Suspects())
    && Few(reports, CutOff(policy.hostileUnreachable)) && Few(reports, Alarmed(policy.hostileAnomalies))
  }

  ghost predicate RejectedElevated(reports: seq<Report>, policy: Policy) {
    Few(reports, CutOff(policy.elevatedUnreachable)) && Few(reports, Alarmed(policy.elevatedAnomalies))
  }

  // ------------------------------------------------------------------ medians

  lemma {:induction false} NotBelowFrom(s: seq<real>, j: nat, t: real)
    requires NonDecreasing(s) && j < |s| && s[j] >= t
    ensures Below(s, t) <= j
    decreases j
  {
    if j > 0 {
      NotBelowFrom(s[1..], j - 1, t);
    } else {
      NoneBelow(s, t);
    }
  }

  lemma {:induction false} NoneBelow(s: seq<real>, t: real)
    requires forall i :: 0 <= i < |s| ==> s[i] >= t
    ensures Below(s, t) == 0
  {
    if s != [] {
      NoneBelow(s[1..], t);
    }
  }

  /** The median reaches a bound if fewer than half of the values are below it, and not if more than half are. */
  lemma MedianByCount(s: seq<real>, t: real)
    requires s != []
    ensures 2 * Below(s, t) < |s| ==> Median(s) >= t
    ensures 2 * Below(s, t) > |s| ==> Median(s) < t
  {
    var a, b := MedianMiddles(s);
    SortAscending(s);
    SortCounts(s, t);
    if 2 * Below(s, t) < |s| {
      MiddleNotBelow(Sort(s), a, t);
    }
    if Sort(s)[b] >= t {
      NotBelowFrom(Sort(s), b, t);
    }
  }

  lemma MedianNotAbove(s: seq<real>, t: real)
    requires s != [] && 2 * Above(s, t) < |s|
    ensures Median(s) <= t
  {
    var a, b := MedianMiddles(s);
    SortAscending(s);
    SortCounts(s, t);
    MiddleNotAbove(Sort(s), b, t);
  }

  lemma {:induction false} CutOffCounts(reports: seq<Report>, t: real)
    ensures Below(Unreachables(reports), t) + Tally(reports, CutOff(t)) == |reports|
    decreases |reports|
  {
    if reports != [] {
      CutOffCounts(reports[1..], t);
      assert reports == [reports[0]] + reports[1..];
      TallyFirst(reports[0], reports[1..], CutOff(t));
    }
  }

  lemma {:induction false} AlarmedCounts(reports: seq<Report>, t: int)
    ensures Below(Anomalies(reports), t as real) + Tally(reports, Alarmed(t)) == |reports|
    ensures Above(Anomalies(reports), (t - 1) as real) == Tally(reports, Alarmed(t))
    decreases |reports|
  {
    if reports != [] {
      AlarmedCounts(reports[1..], t);
      assert reports == [reports[0]] + reports[1..];
      TallyFirst(reports[0], reports[1..], Alarmed(t));
    }
  }

  lemma {:induction false} SuspectsCount(reports: seq<Report>)
    ensures Suspicions(reports) == Tally(reports, Suspects())
    decreases |reports|
  {
    if reports != [] {
      SuspectsCount(reports[1..]);
      assert reports == [reports[0]] + reports[1..];
      TallyFirst(reports[0], reports[1..], Suspects());
    }
  }

  lemma CutOffDecides(reports: seq<Report>, t: real)
    requires reports != []
    ensures Most(reports, CutOff(t)) ==> Median(Unreachables(reports)) >= t
    ensures Few(reports, CutOff(t)) ==> Median(Unreachables(reports)) < t
  {
    CutOffCounts(reports, t);
    MedianByCount(Unreachables(reports), t);
  }

  lemma AlarmedDecides(reports: seq<Report>, t: int)
    requires reports != []
    ensures Most(reports, Alarmed(t)) ==> Truncate(Median(Anomalies(reports))) >= t
    ensures Few(reports, Alarmed(t)) ==> Truncate(Median(Anomalies(reports))) < t
  {
    AlarmedCounts(reports, t);
    MedianByCount(Anomalies(reports), t as real);
    if Few(reports, Alarmed(t)) {
      MedianNotAbove(Anomalies(reports), (t - 1) as real);
    }
  }

  // ------------------------------------------------------------------ the level

  /** More than half of a quorum force a level; fewer than half on every count exclude it. */
  lemma LevelByMajority(reports: seq<Report>, policy: Policy, quorum: int)
    requires reports != [] && |reports| >= quorum
    ensures VotedHostile(reports, policy) ==> Raw(reports, policy, quorum) == Hostile
    ensures VotedElevated(reports, policy) ==> Raw(reports, policy, quorum) != Calm
    ensures RejectedHostile(reports, policy) ==> Raw(reports, policy, quorum) != Hostile
    ensures RejectedHostile(reports, policy) && RejectedElevated(reports, policy) ==>
            Raw(reports, policy, quorum) == Calm
  {
    SuspectsCount(reports);
    CutOffDecides(reports, policy.hostileUnreachable);
    AlarmedDecides(reports, policy.hostileAnomalies);
    CutOffDecides(reports, policy.elevatedUnreachable);
    AlarmedDecides(reports, policy.elevatedAnomalies);
  }

  lemma OddDecides(reports: seq<Report>, f: Report -> bool)
    requires |reports| % 2 == 1
    ensures Few(reports, f) <==> !Most(reports, f)
  {
  }

  /** An odd quorum decides by majority alone: hostile, else elevated, else calm. */
  lemma LevelByVote(reports: seq<Report>, policy: Policy, quorum: int)
    requires |reports| >= quorum && |reports| % 2 == 1
    ensures Raw(reports, policy, quorum) ==
            if VotedHostile(reports, policy) then Hostile
            else if VotedElevated(reports, policy) then Elevated else Calm
  {
    OddDecides(reports, CutOff(policy.hostileUnreachable));
    OddDecides(reports, Alarmed(policy.hostileAnomalies));
    OddDecides(reports, CutOff(policy.elevatedUnreachable));
    OddDecides(reports, Alarmed(policy.elevatedAnomalies));
    LevelByMajority(reports, policy, quorum);
  }

  /**
    What a step reports: the worse of the level before and the one resolved, in
    force at its own tier; an automatic escalation exactly when it rose; a
    proposal exactly when the next state is calmer, naming that state's level.
   */
  lemma StepReports(reports: seq<Report>, state: ThreatState, policy: Policy, quorum: int)
    ensures var (next, a) := Step(reports, state, policy, quorum);
      var raw := Raw(reports, policy, quorum);
      && a.level == (if Rank(raw) > Rank(state.level) then raw else state.level)
      && a.tier == policy.tierOf(a.level)
      && (a.actuation == AutoEscalate <==> Rank(next.level) > Rank(state.level))
      && (a.actuation.ProposeDeescalate? <==> Rank(next.level) < Rank(state.level))
      && (a.actuation.ProposeDeescalate? ==>
            a.actuation.proposed == next.level && a.actuation.proposedTier == policy.tierOf(next.level))
  {
    StepIsNext(reports, state, policy, quorum);
  }
}

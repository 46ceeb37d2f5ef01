/** Fanning in the masters' receipts, and what an assessment of the result means. */
module TriadReceipts {
  import opened Common
  import opened Lexicographic
  import opened MacroTriad
  import opened Tallies

  // -------------------------------------------------------------------- collecting

  /** A receipt file: unreadable, or a document. */
  datatype File = Unreadable | Holds(raw: Raw)

  datatype Reason = NotReadable | NotWellFormed | DuplicateMaster

  datatype Rejection = Rejection(path: nat, reason: Reason)

  predicate Claims(f: File, cluster: string) {
    f.Holds? && f.raw.WellFormed? && f.raw.receipt.cluster == cluster
  }

  predicate Lints(f: File) {
    f.Holds? && f.raw.WellFormed?
  }

  /** The first well-formed receipt of its master. */
  predicate Kept(files: seq<File>, i: nat)
    requires i < |files|
  {
    Lints(files[i]) && forall j :: 0 <= j < i ==> !Claims(files[j], files[i].raw.receipt.cluster)
  }

  function WhyRejected(f: File): Reason {
    if f.Unreadable? then NotReadable else if f.raw.Malformed? then NotWellFormed else DuplicateMaster
  }

  /** The receipts kept among the first n files. */
  function KeptOf(files: seq<File>, n: nat): seq<Raw>
    requires n <= |files|
  {
    if n == 0 then [] else KeptOf(files, n - 1) + (if Kept(files, n - 1) then [files[n - 1].raw] else [])
  }

  function RejectedOf(files: seq<File>, n: nat): seq<Rejection>
    requires n <= |files|
  {
    if n == 0 then []
    else RejectedOf(files, n - 1) + (if Kept(files, n - 1) then [] else [Rejection(n - 1, WhyRejected(files[n - 1]))])
  }

  /**
    `collect_receipts`: each master's first well-formed receipt is kept and everything else is recorded with
    its reason.
   */
  method Collect(files: seq<File>) returns (receipts: seq<Raw>, rejected: seq<Rejection>)
    ensures receipts == KeptOf(files, |files|)
    ensures rejected == RejectedOf(files, |files|)
  {
    receipts, rejected := [], [];
    var seen: set<string> := {};
    for i := 0 to |files|
      invariant receipts == KeptOf(files, i) && rejected == RejectedOf(files, i)
      invariant forall c :: c in seen <==> exists j :: 0 <= j < i && Claims(files[j], c)
    {
      var f := files[i];
      if f.Unreadable? {
        rejected := rejected + [Rejection(i, NotReadable)];
      } else if f.raw.Malformed? {
        rejected := rejected + [Rejection(i, NotWellFormed)];
      } else {
        var cluster := f.raw.receipt.cluster;
        if cluster in seen {
          rejected := rejected + [Rejection(i, DuplicateMaster)];
        } else {
          seen := seen + {cluster};
          receipts := receipts + [f.raw];
        }
        assert Claims(files[i], cluster);
      }
    }
  }

  /** Every path is accounted for, as kept or as rejected. */
  lemma {:induction false} EveryPathAccounted(files: seq<File>, n: nat)
    requires n <= |files|
    ensures |KeptOf(files, n)| + |RejectedOf(files, n)| == n
    decreases n
  {
    if n > 0 {
      EveryPathAccounted(files, n - 1);
    }
  }

  ghost predicate DistinctMasters(raws: seq<Raw>) {
    && (forall i :: 0 <= i < |raws| ==> raws[i].WellFormed?)
    && (forall i, j :: 0 <= i < j < |raws| ==> raws[i].receipt.cluster != raws[j].receipt.cluster)
  }

  lemma {:induction false} KeptCameFrom(files: seq<File>, n: nat, k: nat) returns (j: nat)
    requires n <= |files| && k < |KeptOf(files, n)|
    ensures j < n && files[j].Holds? && files[j].raw == KeptOf(files, n)[k] && Kept(files, j)
    decreases n
  {
    if k < |KeptOf(files, n - 1)| {
      j := KeptCameFrom(files, n - 1, k);
    } else {
      j := n - 1;
    }
  }

  /** No master counts twice among the receipts collected. */
  lemma {:induction false} CollectedAreDistinct(files: seq<File>, n: nat)
    requires n <= |files|
    ensures DistinctMasters(KeptOf(files, n))
    decreases n
  {
    if n > 0 {
      CollectedAreDistinct(files, n - 1);
      var front := KeptOf(files, n - 1);
      if Kept(files, n - 1) {
        forall k | 0 <= k < |front| ensures front[k].receipt.cluster != files[n - 1].raw.receipt.cluster {
          var j := KeptCameFrom(files, n - 1, k);
          assert Claims(files[j], front[k].receipt.cluster);
        }
      }
    }
  }

  /** Every master with a well-formed receipt has one among those collected. */
  lemma {:induction false} NoMasterDropped(files: seq<File>, n: nat, i: nat)
    requires i < n <= |files| && Lints(files[i])
    ensures exists k :: 0 <= k < |KeptOf(files, n)| && KeptOf(files, n)[k].WellFormed?
                        && KeptOf(files, n)[k].receipt.cluster == files[i].raw.receipt.cluster
    decreases n, i
  {
    if i < n - 1 {
      NoMasterDropped(files, n - 1, i);
      var front := KeptOf(files, n - 1);
      var k :| 0 <= k < |front| && front[k].WellFormed? && front[k].receipt.cluster == files[i].raw.receipt.cluster;
      assert KeptOf(files, n)[k] == front[k];
    } else if Kept(files, i) {
      assert KeptOf(files, n)[|KeptOf(files, n - 1)|] == files[i].raw;
    } else {
      var j :| 0 <= j < i && Claims(files[j], files[i].raw.receipt.cluster);
      NoMasterDropped(files, n, j);
    }
  }

  // -------------------------------------------------------------------- what a quorum means

  lemma {:induction false} TwoStatesShareTheVotes(raws: seq<Raw>, a: string, b: string)
    requires a != b
    ensures Support(raws, a) + Support(raws, b) <= |raws|
    decreases |raws|
  {
    if raws != [] {
      TwoStatesShareTheVotes(raws[..|raws| - 1], a, b);
    }
  }

  /** A quorum above half the receipts cannot be reached twice. */
  lemma MajorityIsUnique(raws: seq<Raw>, quorum: int, a: string, b: string)
    requires 2 * quorum > |raws| && ReachesQuorum(raws, quorum, a) && ReachesQuorum(raws, quorum, b)
    ensures a == b
  {
    if a != b {
      TwoStatesShareTheVotes(raws, a, b);
    }
  }

  /** With a quorum above half, the canonical state is exactly the one that reaches it. */
  lemma CanonicalIffQuorum(raws: seq<Raw>, quorum: int, a: Assessment, root: string)
    requires 2 * quorum > |raws| && IsAssessment(raws, quorum, a)
    ensures a.canonicalRoot == Some(root) <==> ReachesQuorum(raws, quorum, root)
  {
    if a.canonicalRoot.Some? && ReachesQuorum(raws, quorum, root) {
      MajorityIsUnique(raws, quorum, a.canonicalRoot.value, root);
    }
  }

  /** The distinct masters whose unfenced receipts commit to a state. */
  function MastersFor(raws: seq<Raw>, root: string): set<string> {
    if raws == [] then {}
    else
      var last := raws[|raws| - 1];
      MastersFor(raws[..|raws| - 1], root)
        + (if Votes(last) && last.receipt.stateRoot == root then {last.receipt.cluster} else {})
  }

  lemma {:induction false} MasterSentReceipt(raws: seq<Raw>, root: string, c: string)
    requires c in MastersFor(raws, root)
    ensures exists i :: 0 <= i < |raws| && VotesFor(root)(raws[i]) && raws[i].receipt.cluster == c
    decreases |raws|
  {
    var n := |raws| - 1;
    if c in MastersFor(raws[..n], root) {
      MasterSentReceipt(raws[..n], root, c);
      var i :| 0 <= i < n && VotesFor(root)(raws[..n][i]) && raws[..n][i].receipt.cluster == c;
      assert raws[i] == raws[..n][i];
    } else {
      assert VotesFor(root)(raws[n]);
    }
  }

  /** When no master counts twice, votes are masters. */
  lemma {:induction false} VotesAreMasters(raws: seq<Raw>, root: string)
    requires DistinctMasters(raws)
    ensures |MastersFor(raws, root)| == Support(raws, root)
    decreases |raws|
  {
    if raws != [] {
      var n := |raws| - 1;
      VotesAreMasters(raws[..n], root);
      var last := raws[n].receipt.cluster;
      assert last !in MastersFor(raws[..n], root) by {
        if last in MastersFor(raws[..n], root) {
          MasterSentReceipt(raws[..n], root, last);
        }
      }
    }
  }

  /**
    For collected receipts and a quorum above half: canonical exactly when quorum-many distinct unfenced
    masters commit to it.
   */
  lemma CanonicalIffMasters(files: seq<File>, quorum: int, a: Assessment, root: string)
    requires 2 * quorum > |KeptOf(files, |files|)| && IsAssessment(KeptOf(files, |files|), quorum, a)
    ensures a.canonicalRoot == Some(root) <==> |MastersFor(KeptOf(files, |files|), root)| >= quorum
  {
    var raws := KeptOf(files, |files|);
    CollectedAreDistinct(files, |files|);
    VotesAreMasters(raws, root);
    CanonicalIffQuorum(raws, quorum, a, root);
  }

  // -------------------------------------------------------------------- order, and counting once

  lemma LeaderIsUnique(raws: seq<Raw>, a: string, b: string)
    requires Leads(raws, a) && Leads(raws, b)
    ensures a == b
  {
    if a != b {
      assert Ahead(raws, a, b) && Ahead(raws, b, a);
      BeforeTotal(a, b);
    }
  }

  lemma SameSupport(raws: seq<Raw>, shuffled: seq<Raw>)
    requires Permutes(raws, shuffled)
    ensures forall root :: Support(raws, root) == Support(shuffled, root)
  {
    forall root ensures Support(raws, root) == Support(shuffled, root) {
      TallyPermutes(raws, shuffled, VotesFor(root));
    }
  }

  lemma SameLeader(raws: seq<Raw>, shuffled: seq<Raw>, root: string)
    requires (forall other :: Support(raws, other) == Support(shuffled, other)) && Leads(raws, root)
    ensures Leads(shuffled, root)
  {
    forall other | other != root ensures Ahead(shuffled, root, other) {
      assert Ahead(raws, root, other);
    }
  }

  /** The state found canonical does not depend on the order of the receipts, whatever the quorum. */
  lemma OrderDoesNotMatter(raws: seq<Raw>, shuffled: seq<Raw>, quorum: int, a: Assessment, b: Assessment)
    requires Permutes(raws, shuffled) && IsAssessment(raws, quorum, a) && IsAssessment(shuffled, quorum, b)
    ensures a.canonicalRoot == b.canonicalRoot
  {
    SameSupport(raws, shuffled);
    if a.canonicalRoot.Some? {
      assert ReachesQuorum(shuffled, quorum, a.canonicalRoot.value);
      SameLeader(raws, shuffled, a.canonicalRoot.value);
      LeaderIsUnique(shuffled, a.canonicalRoot.value, b.canonicalRoot.value);
    } else if b.canonicalRoot.Some? {
      assert ReachesQuorum(raws, quorum, b.canonicalRoot.value);
    }
  }

  lemma {:induction false} SickAndHealthy(raws: seq<Raw>, root: string)
    ensures |AllSick(raws, Some(root))| + |Filter(Voters(raws), root)| == |raws|
    decreases |raws|
  {
    if raws != [] {
      var n := |raws| - 1;
      SickAndHealthy(raws[..n], root);
      if Votes(raws[n]) {
        FilterAppend(Voters(raws[..n]), raws[n].receipt, root);
      } else {
        assert Voters(raws) == Voters(raws[..n]);
      }
    }
  }

  lemma {:induction false} AllAreSick(raws: seq<Raw>)
    ensures |AllSick(raws, None)| == |raws|
    decreases |raws|
  {
    if raws != [] {
      AllAreSick(raws[..|raws| - 1]);
    }
  }

  /** Every receipt is counted exactly once, as healthy or as sick. */
  lemma EveryReceiptCountedOnce(raws: seq<Raw>, quorum: int, a: Assessment)
    requires IsAssessment(raws, quorum, a)
    ensures |a.healthy| + |a.sick| == |raws|
  {
    SickListIsRight(raws, a.canonicalRoot);
    SameLength(a.sick, AllSick(raws, a.canonicalRoot));
    if a.canonicalRoot.Some? {
      SickAndHealthy(raws, a.canonicalRoot.value);
    } else {
      AllAreSick(raws);
    }
  }

  // -------------------------------------------------------------------- the failback commit

  /** All receipts that vote for a state carry this commit. */
  ghost predicate OneCommit(raws: seq<Raw>, root: string, commit: string) {
    forall i :: 0 <= i < |raws| && VotesFor(root)(raws[i]) ==> raws[i].receipt.commit == commit
  }

  /** Every assessment of every order of the receipts names this commit. */
  ghost predicate SameInAnyOrder(raws: seq<Raw>, quorum: int, commit: Option<string>) {
    forall shuffled, b :: Permutes(raws, shuffled) && IsAssessment(shuffled, quorum, b) ==> b.canonicalCommit == commit
  }

  lemma {:induction false} VoterCameFrom(raws: seq<Raw>, root: string, k: nat) returns (i: nat)
    requires k < |Filter(Voters(raws), root)|
    ensures i < |raws| && VotesFor(root)(raws[i]) && raws[i].receipt == Filter(Voters(raws), root)[k]
    decreases |raws|
  {
    var n := |raws| - 1;
    if Votes(raws[n]) {
      FilterAppend(Voters(raws[..n]), raws[n].receipt, root);
    } else {
      assert Voters(raws) == Voters(raws[..n]);
    }
    if k < |Filter(Voters(raws[..n]), root)| {
      i := VoterCameFrom(raws[..n], root, k);
    } else {
      i := n;
    }
  }

  lemma SharedMember(a: seq<Raw>, b: seq<Raw>, i: nat) returns (j: nat)
    requires Permutes(a, b) && i < |b|
    ensures j < |a| && a[j] == b[i]
  {
    TallyZero(b, Equals(b[i]));
    assert Equals(b[i])(b[i]);
    assert Tally(a, Equals(b[i])) == Tally(b, Equals(b[i]));
    j := IndexOf(a, b[i]);
  }

  /** If all voters for the canonical state carry one commit, the order is irrelevant. */
  lemma OneCommitIsNamed(raws: seq<Raw>, shuffled: seq<Raw>, quorum: int, a: Assessment, b: Assessment, commit: string)
    requires Permutes(raws, shuffled) && IsAssessment(raws, quorum, a) && IsAssessment(shuffled, quorum, b)
    requires a.canonicalRoot.Some? && OneCommit(raws, a.canonicalRoot.value, commit)
    ensures b.canonicalCommit == Some(commit)
  {
    OrderDoesNotMatter(raws, shuffled, quorum, a, b);
    var i := VoterCameFrom(shuffled, b.canonicalRoot.value, 0);
    var j := SharedMember(raws, shuffled, i);
    assert VotesFor(a.canonicalRoot.value)(raws[j]);
  }

  /** The receipts with the one at t moved to the front. */
  function Promoted(raws: seq<Raw>, t: nat): seq<Raw>
    requires t < |raws|
  {
    [raws[t]] + Without(raws, t)
  }

  lemma PromotedPermutes(raws: seq<Raw>, t: nat)
    requires t < |raws|
    ensures Permutes(raws, Promoted(raws, t))
  {
    forall x ensures Tally(raws, Equals(x)) == Tally(Promoted(raws, t), Equals(x)) {
      TallyWithout(raws, t, Equals(x));
      TallyConcat([raws[t]], Without(raws, t), Equals(x));
      TallySingle(raws[t], Equals(x));
    }
  }

  lemma {:induction false} FirstVoter(first: Raw, rest: seq<Raw>)
    requires Votes(first)
    ensures Voters([first] + rest) != [] && Voters([first] + rest)[0] == first.receipt
    decreases |rest|
  {
    var raws := [first] + rest;
    var n := |raws| - 1;
    if rest == [] {
      assert raws[..n] == [];
      assert Voters(raws) == Voters(raws[..n]) + Vote(first);
    } else {
      assert raws[..n] == [first] + rest[..|rest| - 1];
      FirstVoter(first, rest[..|rest| - 1]);
    }
  }

  lemma {:induction false} FilterHead(rs: seq<Receipt>)
    requires rs != []
    ensures Filter(rs, rs[0].stateRoot) != [] && Filter(rs, rs[0].stateRoot)[0] == rs[0]
    decreases |rs|
  {
    var n := |rs| - 1;
    if n > 0 {
      FilterHead(rs[..n]);
    } else {
      assert Filter(rs[..n], rs[0].stateRoot) == [];
    }
  }

  lemma GroupStartsWith(first: Raw, rest: seq<Raw>)
    requires Votes(first)
    ensures var group := Filter(Voters([first] + rest), first.receipt.stateRoot);
      group != [] && group[0] == first.receipt
  {
    FirstVoter(first, rest);
    FilterHead(Voters([first] + rest));
  }

  /** A voter for the canonical state moved to the front has its commit named. */
  lemma PromotedIsNamed(raws: seq<Raw>, quorum: int, a: Assessment, t: nat) returns (b: Assessment)
    requires IsAssessment(raws, quorum, a) && a.canonicalRoot.Some?
    requires t < |raws| && VotesFor(a.canonicalRoot.value)(raws[t])
    ensures Permutes(raws, Promoted(raws, t)) && IsAssessment(Promoted(raws, t), quorum, b)
    ensures b.canonicalCommit == Some(raws[t].receipt.commit)
  {
    var root, shuffled := a.canonicalRoot.value, Promoted(raws, t);
    PromotedPermutes(raws, t);
    GroupStartsWith(raws[t], Without(raws, t));
    SameSupport(raws, shuffled);
    SameLeader(raws, shuffled, root);
    var group := Filter(Voters(shuffled), root);
    b := Assessment(Some(root), Some(group[0].commit), Clusters(group), SickList(shuffled, Some(root)));
    assert ReachesQuorum(shuffled, quorum, root);
  }

  /**
    The failback commit does not depend on the order of the receipts exactly when all voters for the state
    carry one commit.
   */
  lemma CommitIndependentIff(raws: seq<Raw>, quorum: int, a: Assessment)
    requires IsAssessment(raws, quorum, a) && a.canonicalRoot.Some?
    ensures SameInAnyOrder(raws, quorum, a.canonicalCommit) <==>
            exists commit :: OneCommit(raws, a.canonicalRoot.value, commit)
  {
    var root := a.canonicalRoot.value;
    if commit :| OneCommit(raws, root, commit) {
      forall shuffled, b | Permutes(raws, shuffled) && IsAssessment(shuffled, quorum, b)
        ensures b.canonicalCommit == a.canonicalCommit
      {
        OneCommitIsNamed(raws, shuffled, quorum, a, b, commit);
        OneCommitIsNamed(raws, raws, quorum, a, a, commit);
      }
    }
    if SameInAnyOrder(raws, quorum, a.canonicalCommit) {
      forall t | 0 <= t < |raws| && VotesFor(root)(raws[t]) ensures raws[t].receipt.commit == a.canonicalCommit.value {
        var b := PromotedIsNamed(raws, quorum, a, t);
      }
      assert OneCommit(raws, root, a.canonicalCommit.value);
    }
  }

  /** Two receipts for one state with different commits: the failback commit is that of the one that comes first. */
  lemma CommitFollowsOrder(a: Assessment, b: Assessment, one: Receipt, two: Receipt)
    requires one.stateRoot == two.stateRoot && one.koe.None? && two.koe.None? && one.commit != two.commit
    requires IsAssessment([WellFormed(one), WellFormed(two)], 2, a)
    requires IsAssessment([WellFormed(two), WellFormed(one)], 2, b)
    ensures a.canonicalCommit == Some(one.commit) && b.canonicalCommit == Some(two.commit)
    ensures a.canonicalCommit != b.canonicalCommit
  {
    PairVotes(one, two);
    PairVotes(two, one);
  }

  lemma PairVoters(one: Receipt, two: Receipt)
    requires one.koe.None? && two.koe.None?
    ensures Voters([WellFormed(one), WellFormed(two)]) == [one, two]
  {
    var raws := [WellFormed(one), WellFormed(two)];
    assert raws[..1] == [WellFormed(one)] && raws[..1][..0] == [];
    assert Voters(raws[..1]) == Voters(raws[..1][..0]) + [one];
  }

  lemma PairFilter(one: Receipt, two: Receipt, root: string)
    requires one.stateRoot == two.stateRoot
    ensures Filter([one, two], root) == if root == one.stateRoot then [one, two] else []
  {
    FilterAppend([], one, root);
    FilterAppend([one], two, root);
    assert [] + [one] == [one] && [one] + [two] == [one, two];
  }

  lemma PairVotes(one: Receipt, two: Receipt)
    requires one.stateRoot == two.stateRoot && one.koe.None? && two.koe.None?
    ensures var raws := [WellFormed(one), WellFormed(two)];
      && Voters(raws) == [one, two] && ReachesQuorum(raws, 2, one.stateRoot)
      && forall root :: Filter([one, two], root) == if root == one.stateRoot then [one, two] else []
  {
    PairVoters(one, two);
    forall root ensures Filter([one, two], root) == if root == one.stateRoot then [one, two] else [] {
      PairFilter(one, two, root);
    }
    FilterCounts([one, two], one.stateRoot);
    VotersCount([WellFormed(one), WellFormed(two)], one.stateRoot);
  }

  /** Two states without a quorum are listed in string order, although the later one arrived first. */
  lemma UnsortedSplit(a: Assessment, one: Receipt, two: Receipt)
    requires Before(two.stateRoot, one.stateRoot) && one.koe.None? && two.koe.None?
    requires IsAssessment([WellFormed(one), WellFormed(two)], 2, a)
    ensures a.canonicalRoot.None? && a.sick == [Outvoted(two, None), Outvoted(one, None)]
  {
    var raws := [WellFormed(one), WellFormed(two)];
    TwoVoters(one, two);
    SplitGroups(one, two);
    if a.canonicalRoot.Some? {
      NoPairAgrees(one, two, a.canonicalRoot.value);
    }
  }

  lemma TwoVoters(one: Receipt, two: Receipt)
    requires one.koe.None? && two.koe.None?
    ensures var raws := [WellFormed(one), WellFormed(two)]; Voters(raws) == [one, two] && AllBarred(raws) == []
  {
    var first, raws := [WellFormed(one)], [WellFormed(one), WellFormed(two)];
    assert first[..0] == [] && raws[..1] == first;
    assert Voters(first) == [one] && AllBarred(first) == [];
  }

  lemma NoPairAgrees(one: Receipt, two: Receipt, root: string)
    requires Before(two.stateRoot, one.stateRoot)
    ensures Support([WellFormed(one), WellFormed(two)], root) < 2
  {
    BeforeTotal(two.stateRoot, one.stateRoot);
    TallySingle(WellFormed(one), VotesFor(root));
    TallyAppend([WellFormed(one)], WellFormed(two), VotesFor(root));
    assert [WellFormed(one)] + [WellFormed(two)] == [WellFormed(one), WellFormed(two)];
  }

  lemma SplitGroups(one: Receipt, two: Receipt)
    requires Before(two.stateRoot, one.stateRoot)
    ensures Others(ByRoot(Grouped([one, two])), None) == [Outvoted(two, None), Outvoted(one, None)]
  {
    GroupPair(one, two);
    SortPair(Group(one.stateRoot, [one]), Group(two.stateRoot, [two]));
    OthersPair(two, one);
  }

  lemma GroupPair(one: Receipt, two: Receipt)
    requires Before(two.stateRoot, one.stateRoot)
    ensures Grouped([one, two]) == [Group(one.stateRoot, [one]), Group(two.stateRoot, [two])]
  {
    BeforeTotal(two.stateRoot, one.stateRoot);
    assert [one, two][..1] == [one] && [one][..0] == [];
    assert Grouped([one]) == [Group(one.stateRoot, [one])];
  }

  lemma SortPair(first: Group, second: Group)
    requires Before(second.root, first.root)
    ensures ByRoot([first, second]) == [second, first]
  {
    BeforeTotal(second.root, first.root);
    assert [first, second][1..] == [second] && [second][1..] == [];
    assert ByRoot([second]) == [second];
    assert Insert(first, []) == [first];
  }

  lemma OthersPair(one: Receipt, two: Receipt)
    ensures Others([Group(one.stateRoot, [one]), Group(two.stateRoot, [two])], None)
            == [Outvoted(one, None), Outvoted(two, None)]
  {
    var first, second := Group(one.stateRoot, [one]), Group(two.stateRoot, [two]);
    assert [first, second][..1] == [first] && [first][..0] == [];
    assert Others([first], None) == [Outvoted(one, None)];
  }
}

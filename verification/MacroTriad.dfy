/** The quorum over the masters' integrity receipts: which state is canonical, and who is sick against it. */
module MacroTriad {
  import opened Common
  import opened Lexicographic
  import opened Tallies

  /** A receipt that passes the linter; `koe` is set when the replica is already fenced. */
  datatype Receipt = Receipt(cluster: string, stateRoot: string, commit: string, koe: Option<string>)

  /** A submitted document: it lints, or it does not and may still name a cluster. */
  datatype Raw = WellFormed(receipt: Receipt) | Malformed(cluster: Option<string>)

  datatype Why = BadReceipt | Fenced | Unreconciled | Diverged

  datatype Sick = Sick(cluster: string, why: Why, headCommit: Option<string>, koe: Option<string>)

  datatype Assessment = Assessment(canonicalRoot: Option<string>, canonicalCommit: Option<string>,
                                   healthy: seq<string>, sick: seq<Sick>)

  /** The receipts that agree on one state, in the order they came. */
  datatype Group = Group(root: string, receipts: seq<Receipt>)

  predicate Votes(raw: Raw) {
    raw.WellFormed? && raw.receipt.koe.None?
  }

  function VotesFor(root: string): Raw -> bool {
    (raw: Raw) => Votes(raw) && raw.receipt.stateRoot == root
  }

  function Vote(raw: Raw): seq<Receipt> {
    if Votes(raw) then [raw.receipt] else []
  }

  /** The receipts that may vote. */
  function Voters(raws: seq<Raw>): seq<Receipt> {
    if raws == [] then [] else Voters(raws[..|raws| - 1]) + Vote(raws[|raws| - 1])
  }

  function CommitsTo(root: string): Receipt -> bool {
    (r: Receipt) => r.stateRoot == root
  }

  function Filter(rs: seq<Receipt>, root: string): seq<Receipt> {
    if rs == [] then []
    else Filter(rs[..|rs| - 1], root) + (if rs[|rs| - 1].stateRoot == root then [rs[|rs| - 1]] else [])
  }

  lemma {:induction false} FilterCounts(rs: seq<Receipt>, root: string)
    ensures |Filter(rs, root)| == Tally(rs, CommitsTo(root))
    decreases |rs|
  {
    if rs != [] {
      FilterCounts(rs[..|rs| - 1], root);
    }
  }

  lemma {:induction false} VotersCount(raws: seq<Raw>, root: string)
    ensures Tally(Voters(raws), CommitsTo(root)) == Tally(raws, VotesFor(root))
    decreases |raws|
  {
    if raws != [] {
      var n := |raws| - 1;
      VotersCount(raws[..n], root);
      if Votes(raws[n]) {
        TallyAppend(Voters(raws[..n]), raws[n].receipt, CommitsTo(root));
      } else {
        assert Voters(raws) == Voters(raws[..n]);
      }
    }
  }

  // -------------------------------------------------------------------- grouping

  function Where(groups: seq<Group>, root: string, i: nat): (r: nat)
    requires i <= |groups|
    ensures i <= r <= |groups|
    ensures r < |groups| ==> groups[r].root == root
    ensures forall j :: i <= j < r ==> groups[j].root != root
    decreases |groups| - i
  {
    if i == |groups| || groups[i].root == root then i else Where(groups, root, i + 1)
  }

  /** `by_state[root].append(receipt)`. */
  function Add(groups: seq<Group>, r: Receipt): seq<Group> {
    var i := Where(groups, r.stateRoot, 0);
    if i < |groups| then groups[i := Group(r.stateRoot, groups[i].receipts + [r])]
    else groups + [Group(r.stateRoot, [r])]
  }

  function Grouped(rs: seq<Receipt>): seq<Group> {
    if rs == [] then [] else Add(Grouped(rs[..|rs| - 1]), rs[|rs| - 1])
  }

  ghost predicate DistinctRoots(groups: seq<Group>) {
    forall i, j :: 0 <= i < j < |groups| ==> groups[i].root != groups[j].root
  }

  /** Each group holds the receipts of its state, in order, and every state voted for has one. */
  ghost predicate AreGroups(groups: seq<Group>, rs: seq<Receipt>) {
    && DistinctRoots(groups)
    && (forall i :: 0 <= i < |groups| ==> groups[i].receipts == Filter(rs, groups[i].root) && groups[i].receipts != [])
    && (forall root :: Filter(rs, root) != [] ==> HasRoot(groups, root))
  }

  ghost predicate HasRoot(groups: seq<Group>, root: string) {
    exists i :: 0 <= i < |groups| && groups[i].root == root
  }

  lemma {:induction false} GroupedAreGroups(rs: seq<Receipt>)
    ensures AreGroups(Grouped(rs), rs)
    decreases |rs|
  {
    if rs != [] {
      var n := |rs| - 1;
      GroupedAreGroups(rs[..n]);
      AddKeepsGroups(Grouped(rs[..n]), rs[..n], rs[n]);
      assert rs == rs[..n] + [rs[n]];
    }
  }

  lemma FilterAppend(rs: seq<Receipt>, r: Receipt, root: string)
    ensures Filter(rs + [r], root) == Filter(rs, root) + (if r.stateRoot == root then [r] else [])
  {
    assert (rs + [r])[..|rs|] == rs;
  }

  lemma AddKeepsRoots(groups: seq<Group>, rs: seq<Receipt>, r: Receipt, root: string)
    requires AreGroups(groups, rs) && Filter(rs + [r], root) != []
    ensures HasRoot(Add(groups, r), root)
  {
    var after, i := Add(groups, r), Where(groups, r.stateRoot, 0);
    FilterAppend(rs, r, root);
    if root == r.stateRoot {
      assert after[i].root == root;
    } else {
      assert HasRoot(groups, root);
      var k :| 0 <= k < |groups| && groups[k].root == root;
      assert after[k].root == root;
    }
  }

  lemma AddKeepsDistinct(groups: seq<Group>, r: Receipt)
    requires DistinctRoots(groups)
    ensures DistinctRoots(Add(groups, r))
  {
  }

  lemma AddKeepsGroup(groups: seq<Group>, rs: seq<Receipt>, r: Receipt, k: nat)
    requires AreGroups(groups, rs) && k < |Add(groups, r)|
    ensures var group := Add(groups, r)[k]; group.receipts == Filter(rs + [r], group.root) && group.receipts != []
  {
    assert Where(groups, r.stateRoot, 0) == |groups| ==> !HasRoot(groups, r.stateRoot);
    FilterAppend(rs, r, Add(groups, r)[k].root);
  }

  lemma AddKeepsGroups(groups: seq<Group>, rs: seq<Receipt>, r: Receipt)
    requires AreGroups(groups, rs)
    ensures AreGroups(Add(groups, r), rs + [r])
  {
    var after := Add(groups, r);
    AddKeepsDistinct(groups, r);
    forall k | 0 <= k < |after|
      ensures after[k].receipts == Filter(rs + [r], after[k].root) && after[k].receipts != []
    {
      AddKeepsGroup(groups, rs, r, k);
    }
    forall root | Filter(rs + [r], root) != [] ensures HasRoot(after, root) {
      AddKeepsRoots(groups, rs, r, root);
    }
  }

  // -------------------------------------------------------------------- the canonical state

  function Support(raws: seq<Raw>, root: string): nat {
    Tally(raws, VotesFor(root))
  }

  /** The state with the most votes, the first in string order among equals. */
  ghost predicate Leads(raws: seq<Raw>, root: string) {
    Support(raws, root) >= 1 && forall other :: other != root ==> Ahead(raws, root, other)
  }

  ghost predicate Ahead(raws: seq<Raw>, root: string, other: string) {
    Support(raws, other) < Support(raws, root) || (Support(raws, other) == Support(raws, root) && Before(root, other))
  }

  predicate Beats(a: Group, b: Group) {
    |a.receipts| > |b.receipts| || (|a.receipts| == |b.receipts| && Before(a.root, b.root))
  }

  lemma BeatsTransitive(a: Group, b: Group, c: Group)
    requires Beats(a, b) && Beats(b, c)
    ensures Beats(a, c)
  {
    if Before(a.root, b.root) && Before(b.root, c.root) {
      BeforeTransitive(a.root, b.root, c.root);
    }
  }

  /** `max` over the sorted states, by number of receipts. */
  method Largest(groups: seq<Group>) returns (w: nat)
    requires groups != [] && DistinctRoots(groups)
    ensures w < |groups| && forall i :: 0 <= i < |groups| && i != w ==> Beats(groups[w], groups[i])
  {
    w := 0;
    for i := 1 to |groups|
      invariant w < i && forall j :: 0 <= j < i && j != w ==> Beats(groups[w], groups[j])
    {
      BeforeTotal(groups[i].root, groups[w].root);
      if Beats(groups[i], groups[w]) {
        forall j | 0 <= j < i && j != w ensures Beats(groups[i], groups[j]) {
          BeatsTransitive(groups[i], groups[w], groups[j]);
        }
        w := i;
      }
    }
  }

  /** A group's size is the support of its state. */
  lemma GroupSize(raws: seq<Raw>, groups: seq<Group>, root: string)
    requires AreGroups(groups, Voters(raws))
    ensures |Filter(Voters(raws), root)| == Support(raws, root)
    ensures Support(raws, root) > 0 <==> HasRoot(groups, root)
  {
    FilterCounts(Voters(raws), root);
    VotersCount(raws, root);
  }

  lemma LargestLeads(raws: seq<Raw>, groups: seq<Group>, w: nat)
    requires AreGroups(groups, Voters(raws))
    requires w < |groups| && forall i :: 0 <= i < |groups| && i != w ==> Beats(groups[w], groups[i])
    ensures Leads(raws, groups[w].root) && |groups[w].receipts| == Support(raws, groups[w].root)
  {
    var root := groups[w].root;
    GroupSize(raws, groups, root);
    forall other | other != root ensures Ahead(raws, root, other) {
      GroupSize(raws, groups, other);
      if HasRoot(groups, other) {
        var i :| 0 <= i < |groups| && groups[i].root == other;
        assert Beats(groups[w], groups[i]);
      }
    }
  }

  // -------------------------------------------------------------------- the sick

  function Decimal(n: nat): string {
    (if n < 10 then "" else Decimal(n / 10)) + [('0' as int + n % 10) as char]
  }

  /** The name a malformed receipt goes by. */
  function Name(cluster: Option<string>, i: nat): string {
    if cluster.Some? && cluster.value != "" then cluster.value else "<receipt[" + Decimal(i) + "]>"
  }

  /** Receipts that cannot vote make their master sick at once. */
  function Barred(raw: Raw, i: nat): seq<Sick> {
    match raw
    case Malformed(cluster) => [Sick(Name(cluster, i), BadReceipt, None, None)]
    case WellFormed(r) => if r.koe.Some? then [Sick(r.cluster, Fenced, Some(r.commit), r.koe)] else []
  }

  function AllBarred(raws: seq<Raw>): seq<Sick> {
    if raws == [] then [] else AllBarred(raws[..|raws| - 1]) + Barred(raws[|raws| - 1], |raws| - 1)
  }

  function Outvoted(r: Receipt, canonical: Option<string>): Sick {
    Sick(r.cluster, if canonical.Some? then Diverged else Unreconciled, Some(r.commit), None)
  }

  function OutvotedAll(rs: seq<Receipt>, canonical: Option<string>): seq<Sick> {
    seq(|rs|, i requires 0 <= i < |rs| => Outvoted(rs[i], canonical))
  }

  /** The members of every group but the canonical one. */
  function Others(groups: seq<Group>, canonical: Option<string>): seq<Sick> {
    if groups == [] then []
    else
      var last := groups[|groups| - 1];
      Others(groups[..|groups| - 1], canonical)
        + (if canonical == Some(last.root) then [] else OutvotedAll(last.receipts, canonical))
  }

  /** Reference: what each receipt makes of its master, receipt by receipt. */
  function SickOf(raw: Raw, i: nat, canonical: Option<string>): seq<Sick> {
    if !Votes(raw) then Barred(raw, i)
    else if canonical == Some(raw.receipt.stateRoot) then []
    else [Outvoted(raw.receipt, canonical)]
  }

  function AllSick(raws: seq<Raw>, canonical: Option<string>): seq<Sick> {
    if raws == [] then [] else AllSick(raws[..|raws| - 1], canonical) + SickOf(raws[|raws| - 1], |raws| - 1, canonical)
  }

  /**
    What a receipt says of a sick master: a malformed one names it or its place,
    a fenced one carries the fence, and an outvoted one its own commit.
   */
  predicate Explains(raw: Raw, i: nat, canonical: Option<string>, x: Sick) {
    match raw
    case Malformed(cluster) =>
      x.cluster == Name(cluster, i) && x.why == BadReceipt && x.headCommit.None? && x.koe.None?
    case WellFormed(r) =>
      && x.cluster == r.cluster && x.headCommit == Some(r.commit) && x.koe == r.koe
      && if r.koe.Some? then x.why == Fenced
         else canonical != Some(r.stateRoot) && x.why == if canonical.Some? then Diverged else Unreconciled
  }

  /** The masters named sick are exactly those some receipt explains. */
  lemma {:induction false} SickExplained(raws: seq<Raw>, canonical: Option<string>, x: Sick)
    ensures x in AllSick(raws, canonical) <==> exists i :: 0 <= i < |raws| && Explains(raws[i], i, canonical, x)
    decreases |raws|
  {
    if raws != [] {
      var n := |raws| - 1;
      SickExplained(raws[..n], canonical, x);
      assert forall i :: 0 <= i < n ==> raws[..n][i] == raws[i];
      OneExplained(raws[n], n, canonical, x);
    }
  }

  lemma OneExplained(raw: Raw, i: nat, canonical: Option<string>, x: Sick)
    ensures x in SickOf(raw, i, canonical) <==> Explains(raw, i, canonical, x)
  {
  }

  function Becomes(x: Sick, canonical: Option<string>): Receipt -> bool {
    (r: Receipt) => canonical != Some(r.stateRoot) && Outvoted(r, canonical) == x
  }

  function GroupTally(groups: seq<Group>, f: Receipt -> bool): nat {
    if groups == [] then 0 else GroupTally(groups[..|groups| - 1], f) + Tally(groups[|groups| - 1].receipts, f)
  }

  lemma {:induction false} GroupTallyUpdate(groups: seq<Group>, i: nat, r: Receipt, f: Receipt -> bool)
    requires i < |groups|
    ensures GroupTally(groups[i := Group(groups[i].root, groups[i].receipts + [r])], f)
            == GroupTally(groups, f) + One(f(r))
    decreases |groups|
  {
    var n := |groups| - 1;
    var after := groups[i := Group(groups[i].root, groups[i].receipts + [r])];
    if i == n {
      assert after[..n] == groups[..n];
      TallyAppend(groups[n].receipts, r, f);
    } else {
      GroupTallyUpdate(groups[..n], i, r, f);
      assert after[..n] == groups[..n][i := Group(groups[i].root, groups[i].receipts + [r])];
    }
  }

  /** Grouping neither drops nor repeats a receipt. */
  lemma {:induction false} GroupingConserves(rs: seq<Receipt>, f: Receipt -> bool)
    ensures GroupTally(Grouped(rs), f) == Tally(rs, f)
    decreases |rs|
  {
    if rs != [] {
      var n := |rs| - 1;
      GroupingConserves(rs[..n], f);
      var groups := Grouped(rs[..n]);
      var i := Where(groups, rs[n].stateRoot, 0);
      if i < |groups| {
        GroupTallyUpdate(groups, i, rs[n], f);
      } else {
        var last := Group(rs[n].stateRoot, [rs[n]]);
        assert (groups + [last])[..|groups|] == groups;
        TallyAppend([], rs[n], f);
        assert [] + [rs[n]] == [rs[n]];
      }
    }
  }

  lemma {:induction false} OutvotedTally(rs: seq<Receipt>, root: string, canonical: Option<string>, x: Sick)
    requires forall i :: 0 <= i < |rs| ==> rs[i].stateRoot == root
    ensures (if canonical == Some(root) then 0 else Tally(OutvotedAll(rs, canonical), Equals(x)))
            == Tally(rs, Becomes(x, canonical))
    decreases |rs|
  {
    if rs != [] {
      var n := |rs| - 1;
      OutvotedTally(rs[..n], root, canonical, x);
      assert OutvotedAll(rs, canonical)[..n] == OutvotedAll(rs[..n], canonical);
    }
  }

  ghost predicate Homogeneous(groups: seq<Group>) {
    forall i, k :: 0 <= i < |groups| && 0 <= k < |groups[i].receipts| ==>
      groups[i].receipts[k].stateRoot == groups[i].root
  }

  lemma {:induction false} OthersTally(groups: seq<Group>, canonical: Option<string>, x: Sick)
    requires Homogeneous(groups)
    ensures Tally(Others(groups, canonical), Equals(x)) == GroupTally(groups, Becomes(x, canonical))
    decreases |groups|
  {
    if groups != [] {
      var n := |groups| - 1;
      OthersTally(groups[..n], canonical, x);
      var last := groups[n];
      OutvotedTally(last.receipts, last.root, canonical, x);
      TallyConcat(Others(groups[..n], canonical),
                  if canonical == Some(last.root) then [] else OutvotedAll(last.receipts, canonical), Equals(x));
    }
  }

  lemma OneSickTally(raw: Raw, i: nat, canonical: Option<string>, x: Sick)
    ensures Tally(SickOf(raw, i, canonical), Equals(x))
            == Tally(Barred(raw, i), Equals(x)) + Tally(Vote(raw), Becomes(x, canonical))
  {
    if Votes(raw) {
      TallySingle(raw.receipt, Becomes(x, canonical));
      TallySingle(Outvoted(raw.receipt, canonical), Equals(x));
    }
  }

  /** The reference list, counted by kind of sickness. */
  lemma {:induction false} AllSickTally(raws: seq<Raw>, canonical: Option<string>, x: Sick)
    ensures Tally(AllSick(raws, canonical), Equals(x))
            == Tally(AllBarred(raws), Equals(x)) + Tally(Voters(raws), Becomes(x, canonical))
    decreases |raws|
  {
    if raws != [] {
      var n := |raws| - 1;
      AllSickTally(raws[..n], canonical, x);
      TallyConcat(AllSick(raws[..n], canonical), SickOf(raws[n], n, canonical), Equals(x));
      TallyConcat(AllBarred(raws[..n]), Barred(raws[n], n), Equals(x));
      TallyConcat(Voters(raws[..n]), Vote(raws[n]), Becomes(x, canonical));
      OneSickTally(raws[n], n, canonical, x);
    }
  }

  lemma {:induction false} FilterRoots(rs: seq<Receipt>, root: string)
    ensures forall k :: 0 <= k < |Filter(rs, root)| ==> Filter(rs, root)[k].stateRoot == root
    decreases |rs|
  {
    if rs != [] {
      FilterRoots(rs[..|rs| - 1], root);
    }
  }

  // -------------------------------------------------------------------- the order of the states

  /** `group` before the first group whose root comes after its own. */
  function Insert(group: Group, groups: seq<Group>): seq<Group> {
    if groups == [] || Before(group.root, groups[0].root) then [group] + groups
    else [groups[0]] + Insert(group, groups[1..])
  }

  /** `sorted(by_state.items())`. */
  function ByRoot(groups: seq<Group>): seq<Group> {
    if groups == [] then [] else Insert(groups[0], ByRoot(groups[1..]))
  }

  ghost predicate RootsInOrder(groups: seq<Group>) {
    forall i, j :: 0 <= i < j < |groups| ==> Before(groups[i].root, groups[j].root)
  }

  lemma {:induction false} InsertTally(group: Group, groups: seq<Group>, f: Group -> bool)
    ensures Tally(Insert(group, groups), f) == Tally(groups, f) + One(f(group))
    decreases |groups|
  {
    if groups == [] || Before(group.root, groups[0].root) {
      TallyFirst(group, groups, f);
    } else {
      InsertTally(group, groups[1..], f);
      TallyFirst(groups[0], Insert(group, groups[1..]), f);
      TallyFirst(groups[0], groups[1..], f);
      assert groups == [groups[0]] + groups[1..];
    }
  }

  lemma {:induction false} ByRootTally(groups: seq<Group>, f: Group -> bool)
    ensures Tally(ByRoot(groups), f) == Tally(groups, f)
    decreases |groups|
  {
    if groups != [] {
      ByRootTally(groups[1..], f);
      InsertTally(groups[0], ByRoot(groups[1..]), f);
      TallyFirst(groups[0], groups[1..], f);
      assert groups == [groups[0]] + groups[1..];
    }
  }

  lemma {:induction false} InsertHas(group: Group, groups: seq<Group>, x: Group)
    ensures x in Insert(group, groups) <==> x == group || x in groups
    decreases |groups|
  {
    if groups != [] && !Before(group.root, groups[0].root) {
      InsertHas(group, groups[1..], x);
      assert groups == [groups[0]] + groups[1..];
    }
  }

  lemma {:induction false} ByRootHas(groups: seq<Group>, x: Group)
    ensures x in ByRoot(groups) <==> x in groups
    decreases |groups|
  {
    if groups != [] {
      ByRootHas(groups[1..], x);
      InsertHas(groups[0], ByRoot(groups[1..]), x);
      assert groups == [groups[0]] + groups[1..];
    }
  }

  lemma {:induction false} InsertInOrder(group: Group, groups: seq<Group>)
    requires RootsInOrder(groups) && forall x :: x in groups ==> x.root != group.root
    ensures RootsInOrder(Insert(group, groups))
    decreases |groups|
  {
    if groups != [] {
      BeforeTotal(group.root, groups[0].root);
      assert groups[0] in groups;
      if Before(group.root, groups[0].root) {
        forall j | 0 < j < |groups| ensures Before(group.root, groups[j].root) {
          BeforeTransitive(group.root, groups[0].root, groups[j].root);
        }
      } else {
        var rest := Insert(group, groups[1..]);
        InsertInOrder(group, groups[1..]);
        forall j | 0 <= j < |rest| ensures Before(groups[0].root, rest[j].root) {
          InsertHas(group, groups[1..], rest[j]);
        }
      }
    }
  }

  /** Sorting lists the same groups, in the string order of their states. */
  lemma {:induction false} ByRootInOrder(groups: seq<Group>)
    requires DistinctRoots(groups)
    ensures RootsInOrder(ByRoot(groups)) && Permutes(ByRoot(groups), groups)
    decreases |groups|
  {
    if groups != [] {
      ByRootInOrder(groups[1..]);
      forall x | x in ByRoot(groups[1..]) ensures x.root != groups[0].root {
        ByRootHas(groups[1..], x);
      }
      InsertInOrder(groups[0], ByRoot(groups[1..]));
    }
    forall x ensures Tally(ByRoot(groups), Equals(x)) == Tally(groups, Equals(x)) {
      ByRootTally(groups, Equals(x));
    }
  }

  lemma {:induction false} InsertConserves(group: Group, groups: seq<Group>, f: Receipt -> bool)
    ensures GroupTally(Insert(group, groups), f) == GroupTally(groups, f) + Tally(group.receipts, f)
    decreases |groups|
  {
    if groups == [] || Before(group.root, groups[0].root) {
      GroupTallyFirst(group, groups, f);
    } else {
      InsertConserves(group, groups[1..], f);
      GroupTallyFirst(groups[0], Insert(group, groups[1..]), f);
      GroupTallyFirst(groups[0], groups[1..], f);
      assert groups == [groups[0]] + groups[1..];
    }
  }

  lemma {:induction false} GroupTallyFirst(group: Group, groups: seq<Group>, f: Receipt -> bool)
    ensures GroupTally([group] + groups, f) == Tally(group.receipts, f) + GroupTally(groups, f)
    decreases |groups|
  {
    if groups == [] {
      assert [group] + groups == [] + [group];
      GroupTallyLast([], group, f);
    } else {
      var n := |groups| - 1;
      GroupTallyFirst(group, groups[..n], f);
      GroupTallyLast([group] + groups[..n], groups[n], f);
      GroupTallyLast(groups[..n], groups[n], f);
      assert groups == groups[..n] + [groups[n]];
      assert [group] + groups == [group] + groups[..n] + [groups[n]];
    }
  }

  lemma GroupTallyLast(groups: seq<Group>, group: Group, f: Receipt -> bool)
    ensures GroupTally(groups + [group], f) == GroupTally(groups, f) + Tally(group.receipts, f)
  {
    assert (groups + [group])[..|groups|] == groups;
  }

  lemma {:induction false} ByRootConserves(groups: seq<Group>, f: Receipt -> bool)
    ensures GroupTally(ByRoot(groups), f) == GroupTally(groups, f)
    decreases |groups|
  {
    if groups != [] {
      ByRootConserves(groups[1..], f);
      InsertConserves(groups[0], ByRoot(groups[1..]), f);
      GroupTallyFirst(groups[0], groups[1..], f);
      assert groups == [groups[0]] + groups[1..];
    }
  }

  // -------------------------------------------------------------------- the sick list

  /** The states in the order the code walks them: as they arrived, or sorted if none is canonical. */
  function Walked(groups: seq<Group>, canonical: Option<string>): seq<Group> {
    if canonical.Some? then groups else ByRoot(groups)
  }

  /** The barred receipts in order, then the others state by state. */
  function SickList(raws: seq<Raw>, canonical: Option<string>): seq<Sick> {
    AllBarred(raws) + Others(Walked(Grouped(Voters(raws)), canonical), canonical)
  }

  lemma WalkedHomogeneous(rs: seq<Receipt>, canonical: Option<string>)
    ensures Homogeneous(Walked(Grouped(rs), canonical))
  {
    var groups := Walked(Grouped(rs), canonical);
    GroupedAreGroups(rs);
    forall i | 0 <= i < |groups|
      ensures forall k :: 0 <= k < |groups[i].receipts| ==> groups[i].receipts[k].stateRoot == groups[i].root
    {
      ByRootHas(Grouped(rs), groups[i]);
      FilterRoots(rs, groups[i].root);
    }
  }

  lemma SickListTally(raws: seq<Raw>, canonical: Option<string>, x: Sick)
    ensures Tally(SickList(raws, canonical), Equals(x)) == Tally(AllSick(raws, canonical), Equals(x))
  {
    var rs := Voters(raws);
    var groups := Walked(Grouped(rs), canonical);
    WalkedHomogeneous(rs, canonical);
    OthersTally(groups, canonical, x);
    ByRootConserves(Grouped(rs), Becomes(x, canonical));
    GroupingConserves(rs, Becomes(x, canonical));
    AllSickTally(raws, canonical, x);
    TallyConcat(AllBarred(raws), Others(groups, canonical), Equals(x));
  }

  /** The sick list is, up to order, what each receipt on its own comes to. */
  lemma SickListIsRight(raws: seq<Raw>, canonical: Option<string>)
    ensures Permutes(SickList(raws, canonical), AllSick(raws, canonical))
  {
    forall x ensures Tally(SickList(raws, canonical), Equals(x)) == Tally(AllSick(raws, canonical), Equals(x)) {
      SickListTally(raws, canonical, x);
    }
  }

  // -------------------------------------------------------------------- the assessment

  function Clusters(rs: seq<Receipt>): (s: seq<string>)
    ensures |s| == |rs|
  {
    seq(|rs|, i requires 0 <= i < |rs| => rs[i].cluster)
  }

  ghost predicate ReachesQuorum(raws: seq<Raw>, quorum: int, root: string) {
    Support(raws, root) >= 1 && Support(raws, root) >= quorum
  }

  /** What a correct assessment says. */
  ghost predicate IsAssessment(raws: seq<Raw>, quorum: int, a: Assessment) {
    && (a.canonicalRoot.Some? <==> exists root :: ReachesQuorum(raws, quorum, root))
    && (a.canonicalRoot.Some? ==>
          var root := a.canonicalRoot.value;
          var group := Filter(Voters(raws), root);
          && Leads(raws, root) && ReachesQuorum(raws, quorum, root)
          && group != [] && a.canonicalCommit == Some(group[0].commit) && a.healthy == Clusters(group))
    && (a.canonicalRoot.None? ==> a.canonicalCommit.None? && a.healthy == [])
    && a.sick == SickList(raws, a.canonicalRoot)
  }

  lemma SortStep(raws: seq<Raw>, i: nat)
    requires i < |raws|
    ensures Grouped(Voters(raws[..i + 1])) ==
            if Votes(raws[i]) then Add(Grouped(Voters(raws[..i])), raws[i].receipt) else Grouped(Voters(raws[..i]))
    ensures AllBarred(raws[..i + 1]) == AllBarred(raws[..i]) + Barred(raws[i], i)
  {
    assert raws[..i + 1][..i] == raws[..i];
    var voters := Voters(raws[..i]);
    if Votes(raws[i]) {
      assert (voters + [raws[i].receipt])[..|voters|] == voters;
    } else {
      assert voters + [] == voters;
    }
  }

  /** The first loop: bar what cannot vote and group the rest by state. */
  method Sort(raws: seq<Raw>) returns (groups: seq<Group>, sick: seq<Sick>)
    ensures groups == Grouped(Voters(raws)) && sick == AllBarred(raws)
  {
    groups, sick := [], [];
    for i := 0 to |raws|
      invariant groups == Grouped(Voters(raws[..i])) && sick == AllBarred(raws[..i])
    {
      var raw := raws[i];
      SortStep(raws, i);
      if raw.Malformed? {
        sick := sick + [Sick(Name(raw.cluster, i), BadReceipt, None, None)];
      } else if raw.receipt.koe.Some? {
        sick := sick + [Sick(raw.receipt.cluster, Fenced, Some(raw.receipt.commit), raw.receipt.koe)];
      } else {
        groups := Add(groups, raw.receipt);
      }
    }
    assert raws[..|raws|] == raws;
  }

  method NameGroup(named: seq<Sick>, rs: seq<Receipt>, canonical: Option<string>) returns (sick: seq<Sick>)
    ensures sick == named + OutvotedAll(rs, canonical)
  {
    sick := named;
    for k := 0 to |rs|
      invariant sick == named + OutvotedAll(rs[..k], canonical)
    {
      sick := sick + [Outvoted(rs[k], canonical)];
      assert OutvotedAll(rs[..k + 1], canonical) == OutvotedAll(rs[..k], canonical) + [Outvoted(rs[k], canonical)];
    }
    assert rs[..|rs|] == rs;
  }

  /** The last loop: everyone outside the canonical group is sick. */
  method NameOthers(groups: seq<Group>, canonical: Option<string>) returns (sick: seq<Sick>)
    ensures sick == Others(groups, canonical)
  {
    sick := [];
    for i := 0 to |groups|
      invariant sick == Others(groups[..i], canonical)
    {
      assert groups[..i + 1][..i] == groups[..i];
      if canonical != Some(groups[i].root) {
        sick := NameGroup(sick, groups[i].receipts, canonical);
      }
    }
    assert groups[..|groups|] == groups;
  }

  lemma NoQuorum(raws: seq<Raw>, quorum: int, top: string)
    requires Leads(raws, top) && Support(raws, top) < quorum
    ensures forall root :: !ReachesQuorum(raws, quorum, root)
  {
    forall root ensures !ReachesQuorum(raws, quorum, root) {
      if root != top {
        assert Ahead(raws, top, root);
      }
    }
  }

  lemma NoVoters(raws: seq<Raw>, quorum: int)
    requires Grouped(Voters(raws)) == []
    ensures forall root :: !ReachesQuorum(raws, quorum, root)
  {
    GroupedAreGroups(Voters(raws));
    forall root ensures !ReachesQuorum(raws, quorum, root) {
      GroupSize(raws, [], root);
    }
  }

  /** The index of the group that is canonical, if one is. */
  method Elect(raws: seq<Raw>, groups: seq<Group>, quorum: int) returns (winner: Option<nat>)
    requires groups == Grouped(Voters(raws))
    ensures winner.None? ==> forall root :: !ReachesQuorum(raws, quorum, root)
    ensures winner.Some? ==>
      && winner.value < |groups|
      && Leads(raws, groups[winner.value].root) && ReachesQuorum(raws, quorum, groups[winner.value].root)
  {
    if groups == [] {
      NoVoters(raws, quorum);
      return None;
    }
    GroupedAreGroups(Voters(raws));
    var w := Largest(groups);
    LargestLeads(raws, groups, w);
    if |groups[w].receipts| < quorum {
      NoQuorum(raws, quorum, groups[w].root);
      return None;
    }
    winner := Some(w);
  }

  /** `assess_triad`. */
  method Assess(raws: seq<Raw>, quorum: int) returns (a: Assessment)
    ensures IsAssessment(raws, quorum, a)
  {
    var groups, sick := Sort(raws);
    var winner := Elect(raws, groups, quorum);
    if winner.None? {
      var others := NameOthers(ByRoot(groups), None);
      return Assessment(None, None, [], sick + others);
    }
    GroupedAreGroups(Voters(raws));
    var canonical := groups[winner.value];
    assert ReachesQuorum(raws, quorum, canonical.root);
    var others := NameOthers(groups, Some(canonical.root));
    return Assessment(Some(canonical.root), Some(canonical.receipts[0].commit), Clusters(canonical.receipts),
                      sick + others);
  }
}

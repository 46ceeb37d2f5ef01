/** The k-element selections of a sequence in the order `itertools.combinations` yields them. */
module Combinations {
  import opened Common

  function Prepend(x: Point, cs: seq<seq<Point>>): (r: seq<seq<Point>>)
    ensures |r| == |cs| && forall i :: 0 <= i < |cs| ==> r[i] == [x] + cs[i]
  {
    seq(|cs|, i requires 0 <= i < |cs| => [x] + cs[i])
  }

  function All(xs: seq<Point>, k: nat): seq<seq<Point>>
    decreases |xs|
  {
    if k == 0 then [[]]
    else if xs == [] then []
    else Prepend(xs[0], All(xs[1..], k - 1)) + All(xs[1..], k)
  }

  function Choose(n: nat, k: nat): nat {
    if k == 0 then 1 else if n == 0 then 0 else Choose(n - 1, k - 1) + Choose(n - 1, k)
  }

  lemma AllSplits(xs: seq<Point>, k: nat)
    requires k > 0 && xs != []
    ensures |All(xs, k)| == |All(xs[1..], k - 1)| + |All(xs[1..], k)|
  {
  }

  lemma {:induction false} AllCount(xs: seq<Point>, k: nat)
    ensures |All(xs, k)| == Choose(|xs|, k)
    decreases |xs|
  {
    if k > 0 && xs != [] {
      var m: nat := k - 1;
      AllCount(xs[1..], m);
      AllCount(xs[1..], m + 1);
      AllCountStep(xs, m);
    }
  }

  lemma AllCountStep(xs: seq<Point>, m: nat)
    requires xs != []
    requires |All(xs[1..], m)| == Choose(|xs[1..]|, m) && |All(xs[1..], m + 1)| == Choose(|xs[1..]|, m + 1)
    ensures |All(xs, m + 1)| == Choose(|xs|, m + 1)
  {
    AllSplits(xs, m + 1);
  }

  /** A selection of k different members of xs. */
  ghost predicate Selects(c: seq<Point>, xs: seq<Point>, k: nat) {
    |c| == k && NoRepeats(c) && forall i :: 0 <= i < |c| ==> c[i] in xs
  }

  lemma TailDiffers(xs: seq<Point>)
    requires NoRepeats(xs) && xs != []
    ensures forall x :: x in xs[1..] ==> x in xs && x != xs[0]
  {
    var rest := xs[1..];
    forall x | x in rest ensures x in xs && x != xs[0] {
      var j :| 0 <= j < |rest| && rest[j] == x;
      assert xs[j + 1] == x;
    }
  }

  lemma SelectsMore(c: seq<Point>, xs: seq<Point>, k: nat)
    requires xs != [] && Selects(c, xs[1..], k) && forall x :: x in xs[1..] ==> x in xs && x != xs[0]
    ensures Selects([xs[0]] + c, xs, k + 1)
  {
    var d := [xs[0]] + c;
    assert forall i :: 0 < i < |d| ==> d[i] == c[i - 1];
  }

  lemma {:induction false} AllSelect(xs: seq<Point>, k: nat, i: nat)
    requires NoRepeats(xs) && i < |All(xs, k)|
    ensures Selects(All(xs, k)[i], xs, k)
    decreases |xs|
  {
    if k > 0 {
      var m: nat := k - 1;
      AllSplits(xs, k);
      TailDiffers(xs);
      if i < |All(xs[1..], m)| {
        AllSelect(xs[1..], m, i);
        AllAt(xs, k, i);
        SelectsMore(All(xs[1..], m)[i], xs, m);
      } else {
        var j: nat := i - |All(xs[1..], m)|;
        AllSelect(xs[1..], k, j);
        AllBeyond(xs, k, j);
      }
    }
  }

  /** How many members of xs are in g. */
  ghost function CountIn(xs: seq<Point>, g: set<Point>): nat {
    if xs == [] then 0 else (if xs[0] in g then 1 else 0) + CountIn(xs[1..], g)
  }

  lemma {:induction false} CountInSize(xs: seq<Point>, g: set<Point>)
    requires NoRepeats(xs) && forall x :: x in g ==> x in xs
    ensures CountIn(xs, g) == |g|
    decreases |xs|
  {
    if xs == [] {
      assert g == {};
    } else {
      var rest, g' := xs[1..], g - {xs[0]};
      forall x | x in g' ensures x in rest {
        assert x in xs && xs == [xs[0]] + rest;
      }
      CountInSize(rest, g');
      CountInIgnores(rest, g, xs[0]);
      if xs[0] in g {
        assert g == g' + {xs[0]};
      } else {
        assert g == g';
      }
    }
  }

  lemma {:induction false} CountInIgnores(xs: seq<Point>, g: set<Point>, y: Point)
    requires y !in xs
    ensures CountIn(xs, g) == CountIn(xs, g - {y})
    decreases |xs|
  {
    if xs != [] {
      CountInIgnores(xs[1..], g, y);
    }
  }

  ghost predicate Within(c: seq<Point>, g: set<Point>) {
    forall j :: 0 <= j < |c| ==> c[j] in g
  }

  lemma AllAt(xs: seq<Point>, k: nat, i: nat)
    requires k > 0 && xs != [] && i < |All(xs[1..], k - 1)|
    ensures i < |All(xs, k)| && All(xs, k)[i] == [xs[0]] + All(xs[1..], k - 1)[i]
  {
  }

  lemma AllBeyond(xs: seq<Point>, k: nat, j: nat)
    requires k > 0 && xs != [] && j < |All(xs[1..], k)|
    ensures |All(xs[1..], k - 1)| + j < |All(xs, k)| && All(xs, k)[|All(xs[1..], k - 1)| + j] == All(xs[1..], k)[j]
  {
  }

  /** Among the selections there is one made of members of g only. */
  lemma {:induction false} SomeSelectionIn(xs: seq<Point>, g: set<Point>, k: nat) returns (i: nat)
    requires CountIn(xs, g) >= k
    ensures i < |All(xs, k)| && Within(All(xs, k)[i], g)
    decreases |xs|
  {
    if k == 0 {
      i := 0;
    } else if xs[0] in g {
      i := SomeSelectionIn(xs[1..], g, k - 1);
      AllAt(xs, k, i);
    } else {
      var j := SomeSelectionIn(xs[1..], g, k);
      AllBeyond(xs, k, j);
      i := |All(xs[1..], k - 1)| + j;
    }
  }
}

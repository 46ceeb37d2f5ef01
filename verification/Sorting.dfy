/** Finite sets of integers in ascending order, as `sorted` lists them. */
module Sorting {
  import opened Common

  ghost predicate Ascending(r: seq<int>) {
    forall i, j :: 0 <= i < j < |r| ==> r[i] < r[j]
  }

  predicate IsMinimum(s: set<int>, x: int) {
    x in s && forall y :: y in s ==> x <= y
  }

  lemma {:induction false} HasMinimum(s: set<int>, x: int)
    requires x in s
    ensures exists m :: IsMinimum(s, m)
    decreases |s|
  {
    if y :| y in s && y < x {
      HasMinimum(s - {x}, y);
      var m :| IsMinimum(s - {x}, m);
      assert y in s - {x};
      forall z | z in s ensures m <= z {
        if z != x {
          assert z in s - {x};
        }
      }
      assert IsMinimum(s, m);
    } else {
      assert IsMinimum(s, x);
    }
  }

  function Minimum(s: set<int>): (x: int)
    requires s != {}
    ensures IsMinimum(s, x)
  {
    assert exists m :: IsMinimum(s, m) by {
      HasMinimum(s, Member(s));
    }
    var x :| IsMinimum(s, x);
    x
  }

  function Sorted(s: set<int>): (r: seq<int>)
    ensures Ascending(r)
    ensures |r| == |s|
    ensures forall x :: x in r <==> x in s
  {
    if s == {} then []
    else
      var x := Minimum(s);
      var rest := Sorted(s - {x});
      PrependMinimum(s, x, rest);
      [x] + rest
  }

  lemma PrependMinimum(s: set<int>, x: int, rest: seq<int>)
    requires IsMinimum(s, x) && Ascending(rest) && |rest| == |s - {x}|
    requires forall y :: y in rest <==> y in s - {x}
    ensures Ascending([x] + rest)
    ensures |[x] + rest| == |s|
    ensures forall y :: y in [x] + rest <==> y in s
  {
    assert s == (s - {x}) + {x};
    forall i | 0 <= i < |rest| ensures x < rest[i] {
      assert rest[i] in rest;
    }
    forall y ensures y in [x] + rest <==> y == x || y in rest {
    }
  }
}

/** Counting the elements of a sequence that satisfy a predicate. */
module Tallies {
  function One(b: bool): nat {
    if b then 1 else 0
  }

  function Tally<T>(s: seq<T>, f: T -> bool): nat {
    if s == [] then 0 else Tally(s[..|s| - 1], f) + One(f(s[|s| - 1]))
  }

  lemma TallyAppend<T>(s: seq<T>, x: T, f: T -> bool)
    ensures Tally(s + [x], f) == Tally(s, f) + One(f(x))
  {
    assert (s + [x])[..|s|] == s;
  }

  lemma TallyNext<T>(s: seq<T>, n: nat, f: T -> bool)
    requires n < |s|
    ensures Tally(s[..n + 1], f) == Tally(s[..n], f) + One(f(s[n]))
  {
    assert s[..n + 1] == s[..n] + [s[n]];
    TallyAppend(s[..n], s[n], f);
  }

  lemma {:induction false} TallyUpdate<T>(s: seq<T>, i: nat, x: T, f: T -> bool)
    requires i < |s|
    ensures Tally(s[i := x], f) + One(f(s[i])) == Tally(s, f) + One(f(x))
    decreases |s|
  {
    var n := |s| - 1;
    if i == n {
      assert s[i := x][..n] == s[..n];
    } else {
      TallyUpdate(s[..n], i, x, f);
      assert s[i := x][..n] == s[..n][i := x];
    }
  }

  lemma {:induction false} TallyZero<T>(s: seq<T>, f: T -> bool)
    ensures Tally(s, f) == 0 <==> forall i :: 0 <= i < |s| ==> !f(s[i])
    decreases |s|
  {
    if s != [] {
      var n := |s| - 1;
      TallyZero(s[..n], f);
      if Tally(s, f) == 0 {
        forall i | 0 <= i < |s| ensures !f(s[i]) {
          if i < n {
            assert s[..n][i] == s[i];
          }
        }
      }
    }
  }

  /** If at most one element can satisfy f, the tally says whether one does. */
  lemma {:induction false} TallyAtMostOne<T>(s: seq<T>, f: T -> bool, i: nat)
    requires i < |s| && forall j :: 0 <= j < |s| && f(s[j]) ==> j == i
    ensures Tally(s, f) == One(f(s[i]))
    decreases |s|
  {
    var n := |s| - 1;
    if i < n {
      TallyAtMostOne(s[..n], f, i);
    } else {
      TallyZero(s[..n], f);
    }
  }

  lemma {:induction false} TallyConcat<T>(a: seq<T>, b: seq<T>, f: T -> bool)
    ensures Tally(a + b, f) == Tally(a, f) + Tally(b, f)
    decreases |b|
  {
    if b == [] {
      assert a + b == a;
    } else {
      var n := |b| - 1;
      TallyConcat(a, b[..n], f);
      assert (a + b)[..|a| + n] == a + b[..n];
    }
  }

  lemma TallySingle<T>(x: T, f: T -> bool)
    ensures Tally([x], f) == One(f(x))
  {
    TallyAppend([], x, f);
    assert [] + [x] == [x];
  }

  lemma TallyFirst<T>(x: T, s: seq<T>, f: T -> bool)
    ensures Tally([x] + s, f) == One(f(x)) + Tally(s, f)
  {
    TallySingle(x, f);
    TallyConcat([x], s, f);
  }

  // -------------------------------------------------------------------- order

  function Equals<T(==)>(x: T): T -> bool {
    (y: T) => x == y
  }

  /** The same elements, each as often. */
  ghost predicate Permutes<T(!new)>(a: seq<T>, b: seq<T>) {
    forall x :: Tally(a, Equals(x)) == Tally(b, Equals(x))
  }

  function Without<T>(s: seq<T>, i: nat): seq<T>
    requires i < |s|
  {
    s[..i] + s[i + 1..]
  }

  lemma TallyMiddle<T>(left: seq<T>, x: T, right: seq<T>, f: T -> bool)
    ensures Tally(left + [x] + right, f) == Tally(left + right, f) + One(f(x))
  {
    TallyConcat(left + [x], right, f);
    TallyAppend(left, x, f);
    TallyConcat(left, right, f);
  }

  lemma TallyWithout<T>(s: seq<T>, i: nat, f: T -> bool)
    requires i < |s|
    ensures Tally(s, f) == Tally(Without(s, i), f) + One(f(s[i]))
  {
    var left, right := s[..i], s[i + 1..];
    TallyMiddle(left, s[i], right, f);
    Rejoin(s, i);
  }

  lemma Rejoin<T>(s: seq<T>, i: nat)
    requires i < |s|
    ensures s == s[..i] + [s[i]] + s[i + 1..]
  {
  }

  lemma IndexOf<T>(s: seq<T>, x: T) returns (i: nat)
    requires Tally(s, Equals(x)) > 0
    ensures i < |s| && s[i] == x
  {
    TallyZero(s, Equals(x));
    i :| i < |s| && Equals(x)(s[i]);
  }

  lemma NothingPermutes<T(!new)>(b: seq<T>)
    requires Permutes([], b)
    ensures b == []
  {
    if b != [] {
      assert Tally([], Equals(b[0])) == Tally(b, Equals(b[0]));
      TallyZero(b, Equals(b[0]));
    }
  }

  /** Tallies do not depend on order. */
  lemma {:induction false} TallyPermutes<T(!new)>(a: seq<T>, b: seq<T>, f: T -> bool)
    requires Permutes(a, b)
    ensures Tally(a, f) == Tally(b, f)
    decreases |a|
  {
    if a == [] {
      NothingPermutes(b);
    } else {
      var n := |a| - 1;
      assert Tally(a, Equals(a[n])) == Tally(b, Equals(a[n]));
      var i := IndexOf(b, a[n]);
      forall x ensures Tally(a[..n], Equals(x)) == Tally(Without(b, i), Equals(x)) {
        assert Tally(a, Equals(x)) == Tally(b, Equals(x));
        TallyWithout(b, i, Equals(x));
      }
      TallyPermutes(a[..n], Without(b, i), f);
      TallyWithout(b, i, f);
    }
  }

  lemma {:induction false} TallyAll<T>(s: seq<T>, f: T -> bool)
    requires forall x :: f(x)
    ensures Tally(s, f) == |s|
    decreases |s|
  {
    if s != [] {
      TallyAll(s[..|s| - 1], f);
    }
  }

  lemma SameLength<T(!new)>(a: seq<T>, b: seq<T>)
    requires Permutes(a, b)
    ensures |a| == |b|
  {
    var all := (x: T) => true;
    TallyPermutes(a, b, all);
    TallyAll(a, all);
    TallyAll(b, all);
  }
}

/** The order of strings by code point, and of lists of strings. */
module Lexicographic {
  import opened Common

  predicate Before(a: string, b: string) {
    b != [] && (a == [] || a[0] < b[0] || (a[0] == b[0] && Before(a[1..], b[1..])))
  }

  lemma {:induction false} BeforeTransitive(a: string, b: string, c: string)
    requires Before(a, b) && Before(b, c)
    ensures Before(a, c)
    decreases |a|
  {
    if a != [] && a[0] == b[0] && b[0] == c[0] {
      BeforeTransitive(a[1..], b[1..], c[1..]);
    }
  }

  lemma {:induction false} BeforeTotal(a: string, b: string)
    ensures Before(a, b) || a == b || Before(b, a)
    ensures !(Before(a, b) && (a == b || Before(b, a)))
    decreases |a|
  {
    if a != [] && b != [] && a[0] == b[0] {
      BeforeTotal(a[1..], b[1..]);
      assert a == [a[0]] + a[1..] && b == [b[0]] + b[1..];
    }
  }

  predicate ListBefore(a: seq<string>, b: seq<string>) {
    b != [] && (a == [] || Before(a[0], b[0]) || (a[0] == b[0] && ListBefore(a[1..], b[1..])))
  }

  lemma {:induction false} ListBeforeTransitive(a: seq<string>, b: seq<string>, c: seq<string>)
    requires ListBefore(a, b) && ListBefore(b, c)
    ensures ListBefore(a, c)
    decreases |a|
  {
    if a != [] {
      if Before(a[0], b[0]) && Before(b[0], c[0]) {
        BeforeTransitive(a[0], b[0], c[0]);
      } else if a[0] == b[0] && b[0] == c[0] {
        BeforeTotal(a[0], a[0]);
        ListBeforeTransitive(a[1..], b[1..], c[1..]);
      }
    }
  }

  lemma {:induction false} ListBeforeTotal(a: seq<string>, b: seq<string>)
    ensures ListBefore(a, b) || a == b || ListBefore(b, a)
    ensures !(ListBefore(a, b) && (a == b || ListBefore(b, a)))
    decreases |a|
  {
    if a != [] && b != [] {
      BeforeTotal(a[0], b[0]);
      if a[0] == b[0] {
        ListBeforeTotal(a[1..], b[1..]);
        assert a == [a[0]] + a[1..] && b == [b[0]] + b[1..];
      }
    }
  }

  // ------------------------------------------------------------ sorted listings

  ghost predicate InOrder(r: seq<string>) {
    forall i, j :: 0 <= i < j < |r| ==> Before(r[i], r[j])
  }

  function Inserted(r: seq<string>, x: string): seq<string> {
    if r == [] || Before(x, r[0]) then [x] + r else [r[0]] + Inserted(r[1..], x)
  }

  lemma {:induction false} InsertedHas(r: seq<string>, x: string, y: string)
    ensures y in Inserted(r, x) <==> y == x || y in r
    decreases |r|
  {
    if r != [] && !Before(x, r[0]) {
      InsertedHas(r[1..], x, y);
      assert r == [r[0]] + r[1..];
    }
  }

  lemma {:induction false} InsertedInOrder(r: seq<string>, x: string)
    requires InOrder(r) && x !in r
    ensures InOrder(Inserted(r, x))
    decreases |r|
  {
    if r != [] {
      BeforeTotal(x, r[0]);
      if Before(x, r[0]) {
        forall j | 0 < j < |r| ensures Before(x, r[j]) {
          BeforeTransitive(x, r[0], r[j]);
        }
      } else {
        var rest := Inserted(r[1..], x);
        InsertedInOrder(r[1..], x);
        forall j | 0 <= j < |rest| ensures Before(r[0], rest[j]) {
          InsertedHas(r[1..], x, rest[j]);
        }
      }
    }
  }

  /** The elements of a set, in order. */
  method Sort(s: set<string>) returns (r: seq<string>)
    ensures InOrder(r) && SetOf(r) == s
  {
    r := [];
    var rest := s;
    while rest != {}
      invariant InOrder(r) && rest <= s
      invariant forall y :: y in r <==> y in s && y !in rest
    {
      var x :| x in rest;
      InsertedInOrder(r, x);
      forall y ensures y in Inserted(r, x) <==> y == x || y in r {
        InsertedHas(r, x, y);
      }
      r, rest := Inserted(r, x), rest - {x};
    }
  }
}

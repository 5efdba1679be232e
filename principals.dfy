/**
  Principals: a principal is a string (dclabel.cc:8-9). This module gives the
  order std::string's operator< puts on them and the ascending order in which a
  std::set<Principal> is iterated. Clauses repeats the same least-element
  construction for the iteration order of a std::set<Clause>.
 */
module Principals {

  type Principal = string

  /** std::string's operator<: compare character by character; a proper prefix comes first. */
  predicate Less(a: string, b: string)
  {
    if |a| == 0 then |b| > 0
    else if |b| == 0 then false
    else if a[0] != b[0] then a[0] < b[0]
    else Less(a[1..], b[1..])
  }

  lemma {:induction false} LessIrreflexive(a: string)
    ensures !Less(a, a)
  {
    if |a| > 0 {
      LessIrreflexive(a[1..]);
    }
  }

  lemma {:induction false} LessTransitive(a: string, b: string, c: string)
    requires Less(a, b) && Less(b, c)
    ensures Less(a, c)
  {
    if |a| > 0 && a[0] == b[0] && b[0] == c[0] {
      LessTransitive(a[1..], b[1..], c[1..]);
    }
  }

  lemma {:induction false} LessTotal(a: string, b: string)
    ensures a == b || Less(a, b) || Less(b, a)
  {
    if |a| > 0 && |b| > 0 && a[0] == b[0] {
      LessTotal(a[1..], b[1..]);
      assert a == [a[0]] + a[1..] && b == [b[0]] + b[1..];
    }
  }

  /** Less is a strict total order on strings. */
  lemma LessIsStrictTotalOrder()
    ensures forall a :: !Less(a, a)
    ensures forall a, b, c :: Less(a, b) && Less(b, c) ==> Less(a, c)
    ensures forall a, b :: a == b || Less(a, b) || Less(b, a)
  {
    forall a { LessIrreflexive(a); }
    forall a, b, c | Less(a, b) && Less(b, c) { LessTransitive(a, b, c); }
    forall a, b { LessTotal(a, b); }
  }

  /** m is the principal a std::set<Principal> holding s yields first. */
  predicate IsLeast(m: Principal, s: set<Principal>)
  {
    m in s && forall x :: x in s && x != m ==> Less(m, x)
  }

  lemma {:induction false} LeastExists(s: set<Principal>)
    requires s != {}
    ensures exists m :: IsLeast(m, s)
    decreases |s|
  {
    var x :| x in s;
    if s == {x} {
      assert IsLeast(x, s);
    } else {
      LeastExists(s - {x});
      var m :| IsLeast(m, s - {x});
      LessTotal(m, x);
      if Less(m, x) {
        assert IsLeast(m, s);
      } else {
        forall y | y in s && y != x
          ensures Less(x, y)
        {
          if y != m {
            LessTransitive(x, m, y);
          }
        }
        assert IsLeast(x, s);
      }
    }
  }

  lemma LeastUnique(s: set<Principal>)
    ensures forall m, n :: IsLeast(m, s) && IsLeast(n, s) ==> m == n
  {
    forall m, n | IsLeast(m, s) && IsLeast(n, s)
      ensures m == n
    {
      if m != n {
        LessTransitive(m, n, m);
        LessIrreflexive(m);
      }
    }
  }

  /** The first principal of a non-empty set in ascending order. */
  function Least(s: set<Principal>): (m: Principal)
    requires s != {}
    ensures IsLeast(m, s)
  {
    LeastExists(s);
    LeastUnique(s);
    var m :| IsLeast(m, s); m
  }

  predicate StrictlyAscending(r: seq<Principal>)
  {
    forall i, j :: 0 <= i < j < |r| ==> Less(r[i], r[j])
  }

  /** The principals of s in the order a std::set<Principal> iterates them. */
  function Ascending(s: set<Principal>): (r: seq<Principal>)
    ensures |r| == |s|
    ensures forall x :: x in r <==> x in s
    ensures StrictlyAscending(r)
    decreases |s|
  {
    if s == {} then []
    else
      var m := Least(s);
      [m] + Ascending(s - {m})
  }

  /** The ascending enumeration is the only strictly ascending sequence of the set's elements. */
  lemma {:induction false} AscendingUnique(r: seq<Principal>, s: set<Principal>)
    requires StrictlyAscending(r)
    requires forall x :: x in r <==> x in s
    ensures r == Ascending(s)
    decreases |r|
  {
    if r != [] {
      assert IsLeast(r[0], s) by {
        forall x | x in s && x != r[0]
          ensures Less(r[0], x)
        {
          var j :| 0 <= j < |r| && r[j] == x;
        }
      }
      LeastUnique(s);
      forall x
        ensures x in r[1..] <==> x in s - {r[0]}
      {
        if x in r[1..] {
          var j :| 1 <= j < |r| && r[j] == x;
          if x == r[0] {
            LessIrreflexive(x);
          }
        }
        if x in s && x != r[0] {
          var j :| 0 <= j < |r| && r[j] == x;
          assert j != 0;
          assert r[1..][j - 1] == x;
        }
      }
      AscendingUnique(r[1..], s - {r[0]});
      assert r == [r[0]] + r[1..];
    }
  }

  /** Two sets with the same ascending enumeration are equal. */
  lemma AscendingInjective(s: set<Principal>, t: set<Principal>)
    requires Ascending(s) == Ascending(t)
    ensures s == t
  {
    forall x
      ensures x in s <==> x in t
    {
      assert x in Ascending(s) <==> x in s;
    }
  }
}

/**
  Clauses (dclabel.cc:15-74, dclabel.h:18-54): a clause is a set of principals,
  read as their disjunction. A clause is a value: its identity is its principal
  set, which is also what std::set<Clause> compares.

  The least element and the sorted enumeration of a clause set (IsLeast to
  SortedUnique) repeat the construction Principals gives for principal sets,
  over clause order instead of string order.
 */
module Clauses {

  import Principals
  import opened Output

  type Principal = Principals.Principal

  datatype Clause = Clause(principals: set<Principal>)

  /** Clause(Principal[], size_t): the set of the first len array elements, duplicates collapsed. */
  method FromArray(ps: array<Principal>, len: nat) returns (c: Clause)
    requires len <= ps.Length
    ensures forall p :: p in c.principals <==> p in ps[..len]
    ensures |c.principals| <= len
  {
    var s: set<Principal> := {};
    var i := 0;
    while i < len
      invariant i <= len
      invariant forall p :: p in s <==> p in ps[..i]
      invariant |s| <= i
    {
      assert ps[..i + 1] == ps[..i] + [ps[i]];
      s := s + {ps[i]};
      i := i + 1;
    }
    c := Clause(s);
  }

  /** operator== on clauses: equal principal sets. */
  predicate Equal(c1: Clause, c2: Clause)
    ensures Equal(c1, c2) <==> c1 == c2
  {
    c1.principals == c2.principals
  }

  /** operator!= on clauses: different principal sets. */
  predicate NotEqual(c1: Clause, c2: Clause)
    ensures NotEqual(c1, c2) <==> !Equal(c1, c2)
  {
    c1.principals != c2.principals
  }

  /**
    std::lexicographical_compare of two ascending principal sequences: positions
    where neither element is less than the other are skipped, the first position
    where one element is less than the other decides, and a proper prefix comes
    first.
   */
  predicate LexLess(x: seq<Principal>, y: seq<Principal>)
  {
    if |x| == 0 then |y| > 0
    else if |y| == 0 then false
    else if Principals.Less(x[0], y[0]) then true
    else if Principals.Less(y[0], x[0]) then false
    else LexLess(x[1..], y[1..])
  }

  lemma {:induction false} LexIrreflexive(x: seq<Principal>)
    ensures !LexLess(x, x)
  {
    if |x| > 0 {
      Principals.LessIrreflexive(x[0]);
      LexIrreflexive(x[1..]);
    }
  }

  lemma LexAsymmetric(x: seq<Principal>, y: seq<Principal>)
    ensures !(LexLess(x, y) && LexLess(y, x))
  {
    if LexLess(x, y) && LexLess(y, x) {
      LexTransitive(x, y, x);
      LexIrreflexive(x);
    }
  }

  lemma {:induction false} LexTransitive(x: seq<Principal>, y: seq<Principal>, z: seq<Principal>)
    requires LexLess(x, y) && LexLess(y, z)
    ensures LexLess(x, z)
  {
    Principals.LessIsStrictTotalOrder();
    if |x| > 0 && x[0] == y[0] && y[0] == z[0] {
      LexTransitive(x[1..], y[1..], z[1..]);
    }
  }

  lemma {:induction false} LexTotal(x: seq<Principal>, y: seq<Principal>)
    ensures x == y || LexLess(x, y) || LexLess(y, x)
  {
    if |x| > 0 && |y| > 0 {
      Principals.LessTotal(x[0], y[0]);
      if x[0] == y[0] {
        Principals.LessIrreflexive(x[0]);
        LexTotal(x[1..], y[1..]);
        assert x == [x[0]] + x[1..] && y == [y[0]] + y[1..];
      }
    }
  }

  /**
    operator<= on clauses: a smaller principal set first; between sets of the same
    size, std::set's <=, that is "not lexicographically greater".
   */
  predicate Leq(c1: Clause, c2: Clause)
  {
    if |c1.principals| == |c2.principals| then
      !LexLess(Principals.Ascending(c2.principals), Principals.Ascending(c1.principals))
    else
      |c1.principals| < |c2.principals|
  }

  /** operator< on clauses: <= and !=. */
  predicate Less(c1: Clause, c2: Clause)
  {
    Leq(c1, c2) && NotEqual(c1, c2)
  }

  lemma LessIrreflexive(c: Clause)
    ensures !Less(c, c)
  {
  }

  /** Exactly one of c1 < c2, c1 == c2 and c2 < c1 holds. */
  lemma LessTrichotomy(c1: Clause, c2: Clause)
    ensures Less(c1, c2) || c1 == c2 || Less(c2, c1)
    ensures !(Less(c1, c2) && Less(c2, c1))
    ensures c1 == c2 ==> !Less(c1, c2)
  {
    var a1, a2 := Principals.Ascending(c1.principals), Principals.Ascending(c2.principals);
    if |c1.principals| == |c2.principals| {
      LexTotal(a1, a2);
      LexAsymmetric(a1, a2);
      if a1 == a2 {
        Principals.AscendingInjective(c1.principals, c2.principals);
      }
    }
  }

  lemma LessTransitive(c1: Clause, c2: Clause, c3: Clause)
    requires Less(c1, c2) && Less(c2, c3)
    ensures Less(c1, c3)
  {
    var a1, a2, a3 := Principals.Ascending(c1.principals), Principals.Ascending(c2.principals), Principals.Ascending(c3.principals);
    if |c1.principals| == |c2.principals| == |c3.principals| {
      // c1 != c2 and c2 != c3 with equal sizes, so the ascending sequences differ and are ordered
      LexTotal(a1, a2);
      LexTotal(a2, a3);
      if a1 == a2 { Principals.AscendingInjective(c1.principals, c2.principals); }
      if a2 == a3 { Principals.AscendingInjective(c2.principals, c3.principals); }
      LexTransitive(a1, a2, a3);
      if LexLess(a3, a1) {
        LexTransitive(a1, a3, a1);
        LexIrreflexive(a1);
      }
      if a1 == a3 {
        LexIrreflexive(a1);
      }
    }
  }

  /** Clause < is a strict total order, which lets std::set<Clause> store clauses. */
  lemma LessIsStrictTotalOrder()
    ensures forall c :: !Less(c, c)
    ensures forall c1, c2, c3 :: Less(c1, c2) && Less(c2, c3) ==> Less(c1, c3)
    ensures forall c1, c2 :: Less(c1, c2) || c1 == c2 || Less(c2, c1)
    ensures forall c1, c2 :: !(Less(c1, c2) && Less(c2, c1))
  {
    forall c1, c2, c3 | Less(c1, c2) && Less(c2, c3) { LessTransitive(c1, c2, c3); }
    forall c1, c2 { LessTrichotomy(c1, c2); }
  }

  /** clause.implies(other) (dclabel.h:39): the principal set is a subset of other's. */
  predicate Implies(c1: Clause, c2: Clause)
  {
    c1.principals <= c2.principals
  }

  /** The disjunction reading: the clause holds when one of its principals is among those present. */
  predicate Holds(c: Clause, present: set<Principal>)
  {
    exists p :: p in c.principals && p in present
  }

  /** Subset implication is exactly semantic implication of the disjunctions. */
  lemma ImpliesIsEntailment(c1: Clause, c2: Clause)
    ensures Implies(c1, c2) <==> forall present :: Holds(c1, present) ==> Holds(c2, present)
  {
    if !Implies(c1, c2) {
      var p :| p in c1.principals && p !in c2.principals;
      assert Holds(c1, {p}) && !Holds(c2, {p});
    }
  }

  lemma ImpliesPartialOrder(c1: Clause, c2: Clause, c3: Clause)
    ensures Implies(c1, c1)
    ensures Implies(c1, c2) && Implies(c2, c3) ==> Implies(c1, c3)
    ensures Implies(c1, c2) && Implies(c2, c1) ==> c1 == c2
  {
  }

  /** The clause for "c1 or c2": the union of both principal sets. */
  function Disjoin(c1: Clause, c2: Clause): (r: Clause)
    ensures Implies(c1, r) && Implies(c2, r)
  {
    Clause(c1.principals + c2.principals)
  }

  /** The union clause holds exactly when one of the two clauses holds. */
  lemma DisjoinIsDisjunction(c1: Clause, c2: Clause, present: set<Principal>)
    ensures Holds(Disjoin(c1, c2), present) <==> Holds(c1, present) || Holds(c2, present)
  {
  }

  const Separator: string := " \\/ "

  /** What operator<< writes for a clause: "[" + principals ascending, separated by " \/ " + "]". */
  function Text(c: Clause): string
  {
    "[" + Join(Principals.Ascending(c.principals), Separator) + "]"
  }

  /** operator<< for Clause: "[", the principals in the set's ascending order with " \/ " between, "]". */
  method Show(c: Clause) returns (o: string)
    ensures o == Text(c)
  {
    o := "[";
    var body := WriteJoined(Principals.Ascending(c.principals), Separator);
    o := o + body + "]";
  }

  /** c is the clause a std::set<Clause> holding cs yields first. */
  predicate IsLeast(c: Clause, cs: set<Clause>)
  {
    c in cs && forall d :: d in cs && d != c ==> Less(c, d)
  }

  lemma {:induction false} LeastExists(cs: set<Clause>)
    requires cs != {}
    ensures exists c :: IsLeast(c, cs)
    decreases |cs|
  {
    var x :| x in cs;
    if cs == {x} {
      assert IsLeast(x, cs);
    } else {
      LeastExists(cs - {x});
      var m :| IsLeast(m, cs - {x});
      LessTrichotomy(m, x);
      if Less(m, x) {
        assert IsLeast(m, cs);
      } else {
        forall y | y in cs && y != x
          ensures Less(x, y)
        {
          if y != m {
            LessTransitive(x, m, y);
          }
        }
        assert IsLeast(x, cs);
      }
    }
  }

  lemma LeastUnique(cs: set<Clause>)
    ensures forall c, d :: IsLeast(c, cs) && IsLeast(d, cs) ==> c == d
  {
    forall c, d | IsLeast(c, cs) && IsLeast(d, cs)
      ensures c == d
    {
      if c != d {
        LessTrichotomy(c, d);
      }
    }
  }

  function Least(cs: set<Clause>): (c: Clause)
    requires cs != {}
    ensures IsLeast(c, cs)
  {
    LeastExists(cs);
    LeastUnique(cs);
    var c :| IsLeast(c, cs); c
  }

  predicate StrictlySorted(r: seq<Clause>)
  {
    forall i, j :: 0 <= i < j < |r| ==> Less(r[i], r[j])
  }

  /** The clauses of cs in the order a std::set<Clause> iterates them. */
  function Sorted(cs: set<Clause>): (r: seq<Clause>)
    ensures |r| == |cs|
    ensures forall c :: c in r <==> c in cs
    ensures StrictlySorted(r)
    decreases |cs|
  {
    if cs == {} then []
    else
      var m := Least(cs);
      [m] + Sorted(cs - {m})
  }

  /** The sorted enumeration is the only strictly sorted sequence of the set's clauses. */
  lemma {:induction false} SortedUnique(r: seq<Clause>, cs: set<Clause>)
    requires StrictlySorted(r)
    requires forall c :: c in r <==> c in cs
    ensures r == Sorted(cs)
    decreases |r|
  {
    if r != [] {
      assert IsLeast(r[0], cs) by {
        forall x | x in cs && x != r[0]
          ensures Less(r[0], x)
        {
          var j :| 0 <= j < |r| && r[j] == x;
        }
      }
      LeastUnique(cs);
      forall x
        ensures x in r[1..] <==> x in cs - {r[0]}
      {
        if x in cs && x != r[0] {
          var j :| 0 <= j < |r| && r[j] == x;
          assert r[1..][j - 1] == x;
        }
      }
      SortedUnique(r[1..], cs - {r[0]});
      assert r == [r[0]] + r[1..];
    }
  }
}

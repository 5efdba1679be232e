/**
  Components (dclabel.cc:76-170, dclabel.h:56-111): a component is |False or a
  set of clauses read as their conjunction, the empty set being |True.

  The pure part (Formula and the functions over it) is the value of a component
  and states what implies, dcAnd, dcOr and dcReduce compute; the class Component
  keeps the source's two fields and changes them in place.
 */
module Components {

  import Principals
  import Clauses
  import opened Output

  type Principal = Principals.Principal
  type Clause = Clauses.Clause

  /** The value of a component: |False, or the conjunction of a clause set. */
  datatype Formula = False | Conj(clauses: set<Clause>)

  /** |True is the empty conjunction. */
  const True: Formula := Conj({})

  /** The conjunction reading: not |False, and every clause holds. */
  predicate Sat(f: Formula, present: set<Principal>)
  {
    f.Conj? && forall c :: c in f.clauses ==> Clauses.Holds(c, present)
  }

  /** Some clause of a implies q. */
  predicate ImpliedBy(a: set<Clause>, q: Clause)
  {
    exists p :: p in a && Clauses.Implies(p, q)
  }

  /**
    Every clause of b is implied by some clause of a. The trigger keeps two
    opposite Covers facts from instantiating each other without end.
   */
  predicate Covers(a: set<Clause>, b: set<Clause>)
  {
    forall q {:trigger ImpliedBy(a, q)} :: q in b ==> ImpliedBy(a, q)
  }

  /**
    a.implies(b) (dclabel.h:82-83): |False implies everything; nothing else
    implies |False; everything implies |True; |True implies nothing else;
    otherwise every clause of b must be implied by some clause of a.
   */
  predicate Implies(a: Formula, b: Formula)
  {
    if a.False? then true
    else if b.False? then false
    else if b.clauses == {} then true
    else if a.clauses == {} then false
    else Covers(a.clauses, b.clauses)
  }

  /** The constants sit at the ends of implication. */
  lemma ImpliesConstants(x: Formula)
    ensures Implies(False, x) && Implies(x, True)
    ensures Implies(True, x) <==> x == True
    ensures Implies(x, False) <==> x == False
  {
  }

  lemma ImpliesReflexive(x: Formula)
    ensures Implies(x, x)
  {
    if x.Conj? {
      assert forall q :: q in x.clauses ==> Clauses.Implies(q, q);
    }
  }

  lemma ImpliesTransitive(a: Formula, b: Formula, c: Formula)
    requires Implies(a, b) && Implies(b, c)
    ensures Implies(a, c)
  {
    if a.Conj? && c.Conj? && c.clauses != {} {
      forall r | r in c.clauses
        ensures exists p :: p in a.clauses && Clauses.Implies(p, r)
      {
        assert ImpliedBy(b.clauses, r);
        var q :| q in b.clauses && Clauses.Implies(q, r);
        assert ImpliedBy(a.clauses, q);
        var p :| p in a.clauses && Clauses.Implies(p, q);
      }
    }
  }

  /** Implication is sound for the conjunction-of-disjunctions reading. */
  lemma ImpliesSound(a: Formula, b: Formula, present: set<Principal>)
    requires Implies(a, b) && Sat(a, present)
    ensures Sat(b, present)
  {
    forall q | q in b.clauses
      ensures Clauses.Holds(q, present)
    {
      assert ImpliedBy(a.clauses, q);
      var p :| p in a.clauses && Clauses.Implies(p, q);
      assert Clauses.Holds(p, present);
    }
  }

  /** Every principal that occurs in some clause of cs. */
  function Mentioned(cs: set<Clause>): (r: set<Principal>)
    ensures forall c, p :: c in cs && p in c.principals ==> p in r
  {
    set c, p | c in cs && p in c.principals :: p
  }

  /**
    Implication is exact for that reading: it holds precisely when every set of
    present principals that satisfies a satisfies b. The one exception is a
    formula holding the empty clause, which no set satisfies and which still does
    not imply |False (EmptyClauseGap).
   */
  lemma ImpliesExact(a: Formula, b: Formula)
    requires !(b.False? && a.Conj? && Clauses.Clause({}) in a.clauses)
    ensures Implies(a, b) <==> forall present :: Sat(a, present) ==> Sat(b, present)
  {
    if Implies(a, b) {
      forall present | Sat(a, present)
        ensures Sat(b, present)
      {
        ImpliesSound(a, b, present);
      }
    } else {
      // a is not |False; build a set of present principals satisfying a but not b
      if b.False? {
        var present := Mentioned(a.clauses);
        forall c | c in a.clauses
          ensures Clauses.Holds(c, present)
        {
          assert c.principals != {};
          var p :| p in c.principals;
        }
        assert Sat(a, present) && !Sat(b, present);
      } else {
        var q :| q in b.clauses && !ImpliedBy(a.clauses, q);
        var present := Mentioned(a.clauses) - q.principals;
        forall c | c in a.clauses
          ensures Clauses.Holds(c, present)
        {
          assert !Clauses.Implies(c, q);
          var p :| p in c.principals && p !in q.principals;
        }
        assert !Clauses.Holds(q, present);
        assert Sat(a, present) && !Sat(b, present);
      }
    }
  }

  /** The exception: {[]} is never satisfied, yet it does not imply |False. */
  lemma EmptyClauseGap()
    ensures forall present :: !Sat(Conj({Clauses.Clause({})}), present)
    ensures !Implies(Conj({Clauses.Clause({})}), False)
  {
    forall present
      ensures !Sat(Conj({Clauses.Clause({})}), present)
    {
      assert Clauses.Clause({}) in Conj({Clauses.Clause({})}).clauses;
    }
  }

  /**
    dcAnd (dclabel.h:85-86): |False if either side is |False, otherwise the union
    of the clause sets.
   */
  function And(a: Formula, b: Formula): (r: Formula)
    ensures forall present :: Sat(r, present) <==> Sat(a, present) && Sat(b, present)
  {
    if a.False? || b.False? then False else Conj(a.clauses + b.clauses)
  }

  lemma AndCommutes(a: Formula, b: Formula)
    ensures And(a, b) == And(b, a)
  {
  }

  /** The conjunction is implied by both sides: it is their lower bound. */
  lemma AndLower(a: Formula, b: Formula)
    ensures Implies(And(a, b), a) && Implies(And(a, b), b)
  {
    ImpliesReflexive(a);
    ImpliesReflexive(b);
    if And(a, b).Conj? {
      ImpliesReflexive(And(a, b));
    }
  }

  /** Whatever implies both sides implies the conjunction: it is the greatest lower bound. */
  lemma AndGreatest(l: Formula, a: Formula, b: Formula)
    requires Implies(l, a) && Implies(l, b)
    ensures Implies(l, And(a, b))
  {
  }

  /**
    dcOr (dclabel.h:87-88): |True if either side is |True; |False is the identity;
    otherwise the union of every clause of a with every clause of b.
   */
  function Or(a: Formula, b: Formula): (r: Formula)
  {
    if a == True || b == True then True
    else if b.False? then a
    else if a.False? then b
    else Conj(Pairs(a.clauses, b.clauses))
  }

  /** Every clause of x joined with every clause of y. */
  function Pairs(x: set<Clause>, y: set<Clause>): (r: set<Clause>)
    ensures forall p, q :: p in x && q in y ==> Clauses.Disjoin(p, q) in r
    ensures forall d :: d in r ==> exists p, q :: p in x && q in y && d == Clauses.Disjoin(p, q)
  {
    set p, q | p in x && q in y :: Clauses.Disjoin(p, q)
  }

  /** Distribution is correct: Or(a, b) holds exactly when a or b holds. */
  lemma OrIsDisjunction(a: Formula, b: Formula, present: set<Principal>)
    ensures Sat(Or(a, b), present) <==> Sat(a, present) || Sat(b, present)
  {
    if a != True && b != True && a.Conj? && b.Conj? {
      var pairs := Or(a, b).clauses;
      if Sat(a, present) || Sat(b, present) {
        forall r | r in pairs
          ensures Clauses.Holds(r, present)
        {
          var p, q :| p in a.clauses && q in b.clauses && r == Clauses.Disjoin(p, q);
          Clauses.DisjoinIsDisjunction(p, q, present);
        }
      }
      if !Sat(a, present) && !Sat(b, present) {
        var p :| p in a.clauses && !Clauses.Holds(p, present);
        var q :| q in b.clauses && !Clauses.Holds(q, present);
        assert Clauses.Disjoin(p, q) in pairs;
        Clauses.DisjoinIsDisjunction(p, q, present);
      }
    }
  }

  lemma OrCommutes(a: Formula, b: Formula)
    ensures Or(a, b) == Or(b, a)
  {
    if a != True && b != True && a.Conj? && b.Conj? {
      var ab := Or(a, b).clauses;
      var ba := Or(b, a).clauses;
      forall r
        ensures r in ab <==> r in ba
      {
        if r in ab {
          var p, q :| p in a.clauses && q in b.clauses && r == Clauses.Disjoin(p, q);
          assert Clauses.Disjoin(q, p) == r;
        }
        if r in ba {
          var q, p :| q in b.clauses && p in a.clauses && r == Clauses.Disjoin(q, p);
          assert Clauses.Disjoin(p, q) == r;
        }
      }
    }
  }

  /** Both sides imply the disjunction: it is their upper bound. */
  lemma OrUpper(a: Formula, b: Formula)
    ensures Implies(a, Or(a, b)) && Implies(b, Or(a, b))
  {
    OrUpperLeft(a, b);
    OrUpperLeft(b, a);
    OrCommutes(a, b);
  }

  lemma OrUpperLeft(a: Formula, b: Formula)
    ensures Implies(a, Or(a, b))
  {
    ImpliesReflexive(a);
    if a != True && b != True && a.Conj? && b.Conj? {
      var r := Pairs(a.clauses, b.clauses);
      forall d | d in r
        ensures exists p :: p in a.clauses && Clauses.Implies(p, d)
      {
        var p, q :| p in a.clauses && q in b.clauses && d == Clauses.Disjoin(p, q);
      }
      assert Covers(a.clauses, r);
    }
  }

  /** Whatever both sides imply, the disjunction implies: it is the least upper bound. */
  lemma OrLeast(a: Formula, b: Formula, l: Formula)
    requires Implies(a, l) && Implies(b, l)
    ensures Implies(Or(a, b), l)
  {
    ImpliesConstants(l);
    var r := Or(a, b);
    if a != True && b != True && a.Conj? && b.Conj? && l.Conj? && l.clauses != {} {
      forall d | d in l.clauses
        ensures exists e :: e in r.clauses && Clauses.Implies(e, d)
      {
        assert ImpliedBy(a.clauses, d) && ImpliedBy(b.clauses, d);
        var p :| p in a.clauses && Clauses.Implies(p, d);
        var q :| q in b.clauses && Clauses.Implies(q, d);
        assert Clauses.Disjoin(p, q) in r.clauses;
      }
    }
  }

  /** Two formulas with the same satisfying sets, and |False on the same side, imply each other. */
  lemma MutualFromMeaning(x: Formula, y: Formula)
    requires forall present :: Sat(x, present) <==> Sat(y, present)
    requires x.False? <==> y.False?
    ensures Implies(x, y) && Implies(y, x)
  {
    ImpliesExact(x, y);
    ImpliesExact(y, x);
  }

  lemma AndAssociative(a: Formula, b: Formula, c: Formula)
    ensures And(And(a, b), c) == And(a, And(b, c))
  {
    if !(a.False? || b.False? || c.False?) {
      assert a.clauses + b.clauses + c.clauses == a.clauses + (b.clauses + c.clauses);
    }
  }

  /** The grouping of a disjunction does not change its meaning: both groupings imply each other. */
  lemma OrAssociative(a: Formula, b: Formula, c: Formula)
    ensures Implies(Or(Or(a, b), c), Or(a, Or(b, c)))
    ensures Implies(Or(a, Or(b, c)), Or(Or(a, b), c))
  {
    forall present
      ensures Sat(Or(Or(a, b), c), present) <==> Sat(Or(a, Or(b, c)), present)
    {
      OrIsDisjunction(Or(a, b), c, present);
      OrIsDisjunction(a, b, present);
      OrIsDisjunction(a, Or(b, c), present);
      OrIsDisjunction(b, c, present);
    }
    MutualFromMeaning(Or(Or(a, b), c), Or(a, Or(b, c)));
  }

  /** Conjunction distributes over disjunction, up to mutual implication. */
  lemma AndDistributesOverOr(a: Formula, b: Formula, c: Formula)
    ensures Implies(And(a, Or(b, c)), Or(And(a, b), And(a, c)))
    ensures Implies(Or(And(a, b), And(a, c)), And(a, Or(b, c)))
  {
    forall present
      ensures Sat(And(a, Or(b, c)), present) <==> Sat(Or(And(a, b), And(a, c)), present)
    {
      OrIsDisjunction(b, c, present);
      OrIsDisjunction(And(a, b), And(a, c), present);
    }
    MutualFromMeaning(And(a, Or(b, c)), Or(And(a, b), And(a, c)));
  }

  /** Disjunction distributes over conjunction, up to mutual implication. */
  lemma OrDistributesOverAnd(a: Formula, b: Formula, c: Formula)
    ensures Implies(Or(a, And(b, c)), And(Or(a, b), Or(a, c)))
    ensures Implies(And(Or(a, b), Or(a, c)), Or(a, And(b, c)))
  {
    forall present
      ensures Sat(Or(a, And(b, c)), present) <==> Sat(And(Or(a, b), Or(a, c)), present)
    {
      OrIsDisjunction(a, And(b, c), present);
      OrIsDisjunction(a, b, present);
      OrIsDisjunction(a, c, present);
    }
    MutualFromMeaning(Or(a, And(b, c)), And(Or(a, b), Or(a, c)));
  }

  /** q is implied by a distinct clause of cs, so the conjunction does not need it. */
  predicate Redundant(q: Clause, cs: set<Clause>)
  {
    exists p :: p in cs && p != q && Clauses.Implies(p, q)
  }

  /** The clauses of cs that no distinct clause of cs implies. */
  function Minimal(cs: set<Clause>): (r: set<Clause>)
    ensures r <= cs
    ensures forall q :: q in r ==> !Redundant(q, cs)
  {
    set q | q in cs && !Redundant(q, cs)
  }

  lemma ProperSubsetSmaller(a: set<Principal>, b: set<Principal>)
    requires a <= b && a != b
    ensures |a| < |b|
  {
    var x :| x in b && x !in a;
    assert b == a + (b - a);
    assert a * (b - a) == {};
    assert x in b - a;
  }

  /** Below every clause there is a minimal one that implies it. */
  lemma {:induction false} MinimalBelow(cs: set<Clause>, q: Clause)
    requires q in cs
    ensures exists m :: m in Minimal(cs) && Clauses.Implies(m, q)
    decreases |q.principals|
  {
    if !Redundant(q, cs) {
      assert q in Minimal(cs) && Clauses.Implies(q, q);
    } else {
      var p :| p in cs && p != q && Clauses.Implies(p, q);
      ProperSubsetSmaller(p.principals, q.principals);
      MinimalBelow(cs, p);
      var m :| m in Minimal(cs) && Clauses.Implies(m, p);
      assert Clauses.Implies(m, q);
    }
  }

  /**
    dcReduce (dclabel.h:90-91): |False and |True are left alone; otherwise every
    clause implied by a distinct clause is removed.
   */
  function Reduce(f: Formula): (r: Formula)
    ensures f == False || f == True ==> r == f
    ensures r.False? <==> f.False?
    ensures r.Conj? ==> r.clauses <= f.clauses
    ensures r.Conj? ==> forall p, q :: p in r.clauses && q in r.clauses && p != q ==> !Clauses.Implies(p, q)
  {
    match f
    case False => False
    case Conj(cs) => Conj(Minimal(cs))
  }

  /** The reduced formula and the original imply each other. */
  lemma ReduceEquivalent(f: Formula)
    ensures Implies(f, Reduce(f)) && Implies(Reduce(f), f)
  {
    if f.Conj? {
      var r := Reduce(f);
      forall q | q in r.clauses
        ensures exists p :: p in f.clauses && Clauses.Implies(p, q)
      {
        assert Clauses.Implies(q, q);
      }
      forall q | q in f.clauses
        ensures exists p :: p in r.clauses && Clauses.Implies(p, q)
      {
        MinimalBelow(f.clauses, q);
      }
      assert r.clauses == {} ==> f.clauses == {} by {
        if f.clauses != {} {
          var q :| q in f.clauses;
          MinimalBelow(f.clauses, q);
        }
      }
    }
  }

  /** So reducing keeps the meaning. */
  lemma ReduceKeepsMeaning(f: Formula, present: set<Principal>)
    ensures Sat(Reduce(f), present) <==> Sat(f, present)
  {
    ReduceEquivalent(f);
    if Sat(f, present) { ImpliesSound(f, Reduce(f), present); }
    if Sat(Reduce(f), present) { ImpliesSound(Reduce(f), f, present); }
  }

  lemma ReduceIdempotent(f: Formula)
    ensures Reduce(Reduce(f)) == Reduce(f)
  {
    if f.Conj? {
      var m := Minimal(f.clauses);
      assert Minimal(m) == m;
    }
  }

  /**
    Formulas that imply each other reduce to the same clause set, so after dcReduce
    structural equality is equivalence.
   */
  lemma ReduceCanonical(a: Formula, b: Formula)
    requires Implies(a, b) && Implies(b, a)
    ensures Reduce(a) == Reduce(b)
  {
    if a.Conj? && b.Conj? && a.clauses != {} && b.clauses != {} {
      MinimalShared(a.clauses, b.clauses);
      MinimalShared(b.clauses, a.clauses);
    }
  }

  /** For clause sets that cover each other, every minimal clause of one is a minimal clause of the other. */
  lemma MinimalShared(x: set<Clause>, y: set<Clause>)
    requires Covers(x, y) && Covers(y, x)
    ensures Minimal(x) <= Minimal(y)
  {
    forall m | m in Minimal(x)
      ensures m in Minimal(y)
    {
      assert ImpliedBy(y, m);
      var q :| q in y && Clauses.Implies(q, m);
      MinimalSharedAt(x, y, m, q);
    }
  }

  lemma MinimalSharedAt(x: set<Clause>, y: set<Clause>, m: Clause, q: Clause)
    requires Covers(x, y)
    requires m in Minimal(x) && q in y && Clauses.Implies(q, m)
    ensures m in Minimal(y)
  {
    // some clause p of x implies q; minimality of m gives p == m, hence q == m
    assert ImpliedBy(x, q);
    var p :| p in x && Clauses.Implies(p, q);
    assert p == m;
    assert q.principals == m.principals;
    // a clause of y strictly below m would put a clause of x strictly below m
    forall q' | q' in y && Clauses.Implies(q', m)
      ensures q' == m
    {
      assert ImpliedBy(x, q');
      var p' :| p' in x && Clauses.Implies(p', q');
    }
  }

  /** For reduced formulas, structural equality is mutual implication, so operator== can compare meanings. */
  lemma ReducedEqualityIsEquivalence(a: Formula, b: Formula)
    requires IsReduced(a) && IsReduced(b)
    ensures a == b <==> Implies(a, b) && Implies(b, a)
  {
    ImpliesReflexive(a);
    if Implies(a, b) && Implies(b, a) {
      ReduceCanonical(a, b);
    }
  }

  /** The clause set of a reduced formula has no redundant clause. */
  predicate IsReduced(f: Formula)
  {
    Reduce(f) == f
  }

  /** What dcFormula(const Clause&) is documented to build: the one-clause conjunction. */
  function Singleton(c: Clause): (f: Formula)
    ensures f != False && f != True
    ensures IsReduced(f)
    ensures forall present :: Sat(f, present) <==> Clauses.Holds(c, present)
  {
    var f := Conj({c});
    assert Minimal({c}) == {c};
    f
  }

  /**
    dcFormula(const Clause&) as written returns |False whatever the clause: the
    result never holds and implies every formula, while the documented singleton
    formula of a non-empty clause holds for some set and does not imply |False.
   */
  lemma StubLosesTheClause(c: Clause)
    requires c.principals != {}
    ensures exists present :: Sat(Singleton(c), present) && !Sat(False, present)
    ensures !Implies(Singleton(c), False) && Implies(False, Singleton(c))
  {
    var p :| p in c.principals;
    assert Clauses.Holds(c, {p});
    assert Sat(Singleton(c), {p});
  }

  const Separator: string := " /\\ "

  /** The text operator<< writes for each clause of cs in turn. */
  function Texts(cs: seq<Clause>): (r: seq<string>)
    ensures |r| == |cs|
  {
    if cs == [] then [] else [Clauses.Text(cs[0])] + Texts(cs[1..])
  }

  lemma {:induction false} TextsSnoc(cs: seq<Clause>, c: Clause)
    ensures Texts(cs + [c]) == Texts(cs) + [Clauses.Text(c)]
    decreases |cs|
  {
    if cs != [] {
      assert (cs + [c])[1..] == cs[1..] + [c];
      TextsSnoc(cs[1..], c);
    }
  }

  /**
    What operator<< writes for a component: "|False" first, then "|True" for the
    empty clause set, otherwise "{" + the clauses in Clause < order separated by
    " /\ " + "}".
   */
  function Text(f: Formula): string
  {
    match f
    case False => "|False"
    case Conj(cs) =>
      if cs == {} then "|True"
      else "{" + Join(Texts(Clauses.Sorted(cs)), Separator) + "}"
  }

  /** The loop of operator<< for Component: each clause via Clause's operator<<, " /\ " while the flag is non-zero. */
  method ShowClauses(cs: seq<Clause>) returns (o: string)
    ensures o == Join(Texts(cs), Separator)
  {
    o := "";
    var flag: int := |cs| - 1;
    var i := 0;
    while i < |cs|
      invariant 0 <= i <= |cs|
      invariant flag == |cs| - 1 - i
      invariant o == Join(Texts(cs[..i]), Separator) + (if 0 < i < |cs| then Separator else "")
    {
      var t := Clauses.Show(cs[i]);
      ghost var joined := Join(Texts(cs[..i + 1]), Separator);
      assert cs[..i + 1] == cs[..i] + [cs[i]];
      TextsSnoc(cs[..i], cs[i]);
      if i > 0 {
        JoinSnoc(Texts(cs[..i]), t, Separator);
        assert o + t == joined;
      }
      o := o + t;
      if flag != 0 {
        o := o + Separator;
      }
      flag := flag - 1;
      i := i + 1;
    }
    assert cs[..i] == cs;
  }

  /** A component: the flag DCFalse and the clause set DCFormula (the empty set encodes |True). */
  class Component {
    var DCFalse: bool
    var DCFormula: set<Clause>

    /** The formula this component stands for; the flag takes precedence over the clause set. */
    function Value(): Formula
      reads this
    {
      if DCFalse then False else Conj(DCFormula)
    }

    /** The flag and the clause set agree: a |False component holds no clauses. */
    predicate Valid()
      reads this
    {
      DCFalse ==> DCFormula == {}
    }

    /** operator== for Component: the same flag and the same clause set, that is the same value. */
    predicate Equals(that: Component)
      reads this, that
      ensures Valid() && that.Valid() ==> (Equals(that) <==> Value() == that.Value())
    {
      DCFalse == that.DCFalse && DCFormula == that.DCFormula
    }

    /** operator!= for Component. */
    predicate NotEquals(that: Component)
      reads this, that
      ensures NotEquals(that) <==> !Equals(that)
    {
      DCFalse != that.DCFalse || DCFormula != that.DCFormula
    }

    /** isFalse() */
    predicate IsFalse()
      reads this
      ensures IsFalse() <==> Value() == False
    {
      DCFalse
    }

    /** isTrue() */
    predicate IsTrue()
      reads this
      ensures IsTrue() <==> Value() == True
      ensures IsTrue() ==> !IsFalse()
    {
      !DCFalse && DCFormula == {}
    }

    /** The default constructor: |False. */
    constructor ()
      ensures DCFalse && DCFormula == {}
      ensures Value() == False && IsFalse() && !IsTrue() && Valid()
    {
      DCFalse := true;
      DCFormula := {};
    }

    /** dcFalse(): a default component. */
    constructor DcFalse()
      ensures DCFalse && DCFormula == {}
      ensures Value() == False && IsFalse() && !IsTrue() && Valid()
    {
      DCFalse := true;
      DCFormula := {};
    }

    /** dcTrue(): the flag cleared and the clause set emptied. */
    constructor DcTrue()
      ensures !DCFalse && DCFormula == {}
      ensures Value() == True && IsTrue() && !IsFalse() && Valid()
    {
      DCFalse := false;
      DCFormula := {};
    }

    /** dcFormula(const std::set<Clause>&): the given clause set, never |False. */
    constructor DcFormula(f: set<Clause>)
      ensures !DCFalse && DCFormula == f
      ensures Value() == Conj(f) && !IsFalse() && Valid()
      ensures IsTrue() <==> f == {}
    {
      DCFalse := false;
      DCFormula := f;
    }

    /** dcFormula(const Clause&) as written: the clause is ignored and the result is a default, |False, component. */
    constructor DcFormulaOfClause(clause: Clause)
      ensures DCFalse && DCFormula == {}
      ensures Value() == False && IsFalse() && Valid()
    {
      DCFalse := true;
      DCFormula := {};
    }

    /** The singleton component the comment on dcFormula(const Clause&) describes. */
    constructor DcFormulaSingleton(clause: Clause)
      ensures !DCFalse && DCFormula == {clause}
      ensures Value() == Singleton(clause) && !IsFalse() && !IsTrue() && Valid()
    {
      DCFalse := false;
      DCFormula := {clause};
    }

    /** setToDCFalse() */
    method SetToDCFalse()
      modifies this
      ensures DCFalse && DCFormula == {}
      ensures Value() == False && Valid()
    {
      DCFalse := true;
      DCFormula := {};
    }

    /** setToDCTrue() */
    method SetToDCTrue()
      modifies this
      ensures !DCFalse && DCFormula == {}
      ensures Value() == True && Valid()
    {
      DCFalse := false;
      DCFormula := {};
    }

    /** setTo(const Component&): copy both fields. */
    method SetTo(that: Component)
      modifies this
      ensures DCFalse == old(that.DCFalse) && DCFormula == old(that.DCFormula)
      ensures Value() == old(that.Value()) && (Valid() <==> old(that.Valid()))
    {
      DCFalse := that.DCFalse;
      DCFormula := that.DCFormula;
    }

    /** dcAnd(const Component&): conjoin that into this one. */
    method DcAnd(that: Component)
      modifies this
      ensures Value() == And(old(Value()), old(that.Value())) && Valid()
    {
      if DCFalse || that.DCFalse {
        SetToDCFalse();
      } else {
        DCFormula := DCFormula + that.DCFormula;
      }
    }

    /** dcOr(const Component&): disjoin that into this one. */
    method DcOr(that: Component)
      modifies this
      ensures Value() == Or(old(Value()), old(that.Value())) && (old(Valid()) ==> Valid())
    {
      if IsTrue() || that.IsTrue() {
        SetToDCTrue();
      } else if that.DCFalse {
      } else if DCFalse {
        SetTo(that);
      } else {
        DCFormula := set p, q | p in DCFormula && q in that.DCFormula :: Clauses.Disjoin(p, q);
      }
    }

    /**
      dcReduce(): visit each clause once and drop it when a distinct clause still
      in the set implies it.
     */
    method DcReduce()
      modifies this
      ensures DCFalse == old(DCFalse)
      ensures Value() == Reduce(old(Value())) && (Valid() <==> old(Valid()))
    {
      if DCFalse || DCFormula == {} {
        return;
      }
      var formula := DCFormula;
      var rest := formula;
      var kept := formula;
      while rest != {}
        invariant DCFalse == old(DCFalse) && DCFormula == formula
        invariant rest <= formula
        invariant kept == Minimal(formula) + rest
        decreases |rest|
      {
        var q :| q in rest;
        if exists p :: p in kept && p != q && Clauses.Implies(p, q) {
          kept := kept - {q};
        } else if Redundant(q, formula) {
          MinimalBelow(formula, q);
          assert false;
        }
        rest := rest - {q};
      }
      DCFormula := kept;
    }

    /** operator<< for Component. */
    method Show() returns (o: string)
      ensures o == Text(Value())
    {
      if DCFalse {
        o := "|False";
      } else if DCFormula == {} {
        o := "|True";
      } else {
        var body := ShowClauses(Clauses.Sorted(DCFormula));
        o := "{" + body + "}";
      }
    }
  }
}

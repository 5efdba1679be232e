/**
  Labels (dclabel.h:113-154): a DCLabel pairs a secrecy component with an
  integrity component. Data may flow from a source to a target when the target's
  secrecy implies the source's and the source's integrity implies the target's.

  The pure part (Label and the functions over it) states what the label
  operations compute; the class DCLabel keeps the two components and changes them
  in place. C++ holds both components by value, so the class holds them as
  Formula values: no two labels can share a component.
 */
module Labels {

  import Components

  type Formula = Components.Formula

  /** The value of a DCLabel. */
  datatype Label = Label(secrecy: Formula, integrity: Formula)

  /** canFlowTo(source, target): the target's secrecy implies the source's, the source's integrity implies the target's. */
  predicate Flows(src: Label, tgt: Label)
  {
    Components.Implies(tgt.secrecy, src.secrecy) && Components.Implies(src.integrity, tgt.integrity)
  }

  /** dcBottom(): no secrecy, no integrity. */
  const Bottom: Label := Label(Components.True, Components.False)

  /** dcTop(): secrecy nobody satisfies, every integrity claim. */
  const Top: Label := Label(Components.False, Components.True)

  /** dcPub(): the public label, the value of a default DCLabel. */
  const Pub: Label := Label(Components.True, Components.True)

  /** Both components are in the canonical form dcReduce produces. */
  predicate Reduced(l: Label)
  {
    Components.IsReduced(l.secrecy) && Components.IsReduced(l.integrity)
  }

  /** The two labels flow to each other. */
  predicate Equivalent(a: Label, b: Label)
  {
    Flows(a, b) && Flows(b, a)
  }

  /** DCLabel(secrecy, integrity): both components reduced. */
  function Make(s: Formula, i: Formula): (l: Label)
    ensures Reduced(l)
  {
    Components.ReduceIdempotent(s);
    Components.ReduceIdempotent(i);
    Label(Components.Reduce(s), Components.Reduce(i))
  }

  /** lub: the conjunction of the secrecy components and the disjunction of the integrity components, reduced. */
  function Join(a: Label, b: Label): (r: Label)
    ensures Reduced(r)
  {
    Make(Components.And(a.secrecy, b.secrecy), Components.Or(a.integrity, b.integrity))
  }

  /** glb: the disjunction of the secrecy components and the conjunction of the integrity components, reduced. */
  function Meet(a: Label, b: Label): (r: Label)
    ensures Reduced(r)
  {
    Make(Components.Or(a.secrecy, b.secrecy), Components.And(a.integrity, b.integrity))
  }

  /** Building a label keeps its meaning: the built label and the pair it came from are equivalent. */
  lemma MakeEquivalent(s: Formula, i: Formula)
    ensures Equivalent(Make(s, i), Label(s, i))
  {
    Components.ReduceEquivalent(s);
    Components.ReduceEquivalent(i);
  }

  /** The lattice points are already in reduced form. */
  lemma ConstantsReduced()
    ensures Reduced(Bottom) && Reduced(Top) && Reduced(Pub)
  {
  }

  lemma FlowsReflexive(l: Label)
    ensures Flows(l, l)
  {
    Components.ImpliesReflexive(l.secrecy);
    Components.ImpliesReflexive(l.integrity);
  }

  lemma FlowsTransitive(a: Label, b: Label, c: Label)
    requires Flows(a, b) && Flows(b, c)
    ensures Flows(a, c)
  {
    Components.ImpliesTransitive(c.secrecy, b.secrecy, a.secrecy);
    Components.ImpliesTransitive(a.integrity, b.integrity, c.integrity);
  }

  /** On reduced labels, flowing both ways is equality: can-flow-to is a partial order. */
  lemma FlowsAntisymmetric(a: Label, b: Label)
    requires Reduced(a) && Reduced(b)
    requires Flows(a, b) && Flows(b, a)
    ensures a == b
  {
    Components.ReduceCanonical(a.secrecy, b.secrecy);
    Components.ReduceCanonical(a.integrity, b.integrity);
  }

  /** Bottom flows to every label and every label flows to Top. */
  lemma BottomAndTop(l: Label)
    ensures Flows(Bottom, l) && Flows(l, Top)
  {
    Components.ImpliesConstants(l.secrecy);
    Components.ImpliesConstants(l.integrity);
  }

  /** Bottom is the only label that flows to all labels, and Top the only one all labels flow to. */
  lemma BottomAndTopUnique(l: Label)
    ensures (forall m :: Flows(l, m)) ==> Equivalent(l, Bottom)
    ensures (forall m :: Flows(m, l)) ==> Equivalent(l, Top)
  {
    BottomAndTop(l);
    if forall m :: Flows(l, m) {
      assert Flows(l, Top);
      assert Flows(l, Bottom);
    }
    if forall m :: Flows(m, l) {
      assert Flows(Bottom, l);
      assert Flows(Top, l);
    }
  }

  /** The join is an upper bound: both inputs flow to it. */
  lemma JoinUpper(a: Label, b: Label)
    ensures Flows(a, Join(a, b)) && Flows(b, Join(a, b))
  {
    var s, i := Components.And(a.secrecy, b.secrecy), Components.Or(a.integrity, b.integrity);
    MakeEquivalent(s, i);
    Components.AndLower(a.secrecy, b.secrecy);
    Components.OrUpper(a.integrity, b.integrity);
    FlowsTransitive(a, Label(s, i), Join(a, b));
    FlowsTransitive(b, Label(s, i), Join(a, b));
  }

  /** The join is the least upper bound: it flows to every label both inputs flow to. */
  lemma JoinLeast(a: Label, b: Label, l: Label)
    requires Flows(a, l) && Flows(b, l)
    ensures Flows(Join(a, b), l)
  {
    var s, i := Components.And(a.secrecy, b.secrecy), Components.Or(a.integrity, b.integrity);
    MakeEquivalent(s, i);
    Components.AndGreatest(l.secrecy, a.secrecy, b.secrecy);
    Components.OrLeast(a.integrity, b.integrity, l.integrity);
    FlowsTransitive(Join(a, b), Label(s, i), l);
  }

  /** The meet is a lower bound: it flows to both inputs. */
  lemma MeetLower(a: Label, b: Label)
    ensures Flows(Meet(a, b), a) && Flows(Meet(a, b), b)
  {
    var s, i := Components.Or(a.secrecy, b.secrecy), Components.And(a.integrity, b.integrity);
    MakeEquivalent(s, i);
    Components.OrUpper(a.secrecy, b.secrecy);
    Components.AndLower(a.integrity, b.integrity);
    FlowsTransitive(Meet(a, b), Label(s, i), a);
    FlowsTransitive(Meet(a, b), Label(s, i), b);
  }

  /** The meet is the greatest lower bound: every label that flows to both inputs flows to it. */
  lemma MeetGreatest(a: Label, b: Label, l: Label)
    requires Flows(l, a) && Flows(l, b)
    ensures Flows(l, Meet(a, b))
  {
    var s, i := Components.Or(a.secrecy, b.secrecy), Components.And(a.integrity, b.integrity);
    MakeEquivalent(s, i);
    Components.OrLeast(a.secrecy, b.secrecy, l.secrecy);
    Components.AndGreatest(l.integrity, a.integrity, b.integrity);
    FlowsTransitive(l, Label(s, i), Meet(a, b));
  }

  lemma JoinCommutes(a: Label, b: Label)
    ensures Join(a, b) == Join(b, a)
  {
    Components.AndCommutes(a.secrecy, b.secrecy);
    Components.OrCommutes(a.integrity, b.integrity);
  }

  lemma MeetCommutes(a: Label, b: Label)
    ensures Meet(a, b) == Meet(b, a)
  {
    Components.OrCommutes(a.secrecy, b.secrecy);
    Components.AndCommutes(a.integrity, b.integrity);
  }

  /** lub(l, l) == l for a reduced label. */
  lemma JoinIdempotent(l: Label)
    requires Reduced(l)
    ensures Join(l, l) == l
  {
    JoinUpper(l, l);
    FlowsReflexive(l);
    JoinLeast(l, l, l);
    FlowsAntisymmetric(Join(l, l), l);
  }

  /** glb(l, l) == l for a reduced label. */
  lemma MeetIdempotent(l: Label)
    requires Reduced(l)
    ensures Meet(l, l) == l
  {
    MeetLower(l, l);
    FlowsReflexive(l);
    MeetGreatest(l, l, l);
    FlowsAntisymmetric(Meet(l, l), l);
  }

  /** The join of three labels does not depend on the grouping. */
  lemma JoinAssociative(a: Label, b: Label, c: Label)
    ensures Join(Join(a, b), c) == Join(a, Join(b, c))
  {
    var l, r := Join(Join(a, b), c), Join(a, Join(b, c));
    JoinUpper(a, b);
    JoinUpper(Join(a, b), c);
    JoinUpper(b, c);
    JoinUpper(a, Join(b, c));
    FlowsTransitive(a, Join(a, b), l);
    FlowsTransitive(b, Join(a, b), l);
    JoinLeast(b, c, l);
    JoinLeast(a, Join(b, c), l);
    FlowsTransitive(b, Join(b, c), r);
    FlowsTransitive(c, Join(b, c), r);
    JoinLeast(a, b, r);
    JoinLeast(Join(a, b), c, r);
    FlowsAntisymmetric(l, r);
  }

  /** The meet of three labels does not depend on the grouping. */
  lemma MeetAssociative(a: Label, b: Label, c: Label)
    ensures Meet(Meet(a, b), c) == Meet(a, Meet(b, c))
  {
    var l, r := Meet(Meet(a, b), c), Meet(a, Meet(b, c));
    MeetLower(a, b);
    MeetLower(Meet(a, b), c);
    MeetLower(b, c);
    MeetLower(a, Meet(b, c));
    FlowsTransitive(l, Meet(a, b), a);
    FlowsTransitive(l, Meet(a, b), b);
    MeetGreatest(b, c, l);
    MeetGreatest(a, Meet(b, c), l);
    FlowsTransitive(r, Meet(b, c), b);
    FlowsTransitive(r, Meet(b, c), c);
    MeetGreatest(a, b, r);
    MeetGreatest(Meet(a, b), c, r);
    FlowsAntisymmetric(l, r);
  }

  /** Absorption: joining a reduced label with its meet with anything gives the label back. */
  lemma JoinAbsorbsMeet(a: Label, b: Label)
    requires Reduced(a)
    ensures Join(a, Meet(a, b)) == a
  {
    JoinUpper(a, Meet(a, b));
    FlowsReflexive(a);
    MeetLower(a, b);
    JoinLeast(a, Meet(a, b), a);
    FlowsAntisymmetric(Join(a, Meet(a, b)), a);
  }

  /** Absorption: meeting a reduced label with its join with anything gives the label back. */
  lemma MeetAbsorbsJoin(a: Label, b: Label)
    requires Reduced(a)
    ensures Meet(a, Join(a, b)) == a
  {
    MeetLower(a, Join(a, b));
    FlowsReflexive(a);
    JoinUpper(a, b);
    MeetGreatest(a, Join(a, b), a);
    FlowsAntisymmetric(Meet(a, Join(a, b)), a);
  }

  /** a flows to b exactly when their join is b, for reduced b. */
  lemma FlowsIffJoin(a: Label, b: Label)
    requires Reduced(b)
    ensures Flows(a, b) <==> Join(a, b) == b
  {
    JoinUpper(a, b);
    if Flows(a, b) {
      FlowsReflexive(b);
      JoinLeast(a, b, b);
      FlowsAntisymmetric(Join(a, b), b);
    }
  }

  /** A DCLabel: the secrecy and the integrity component. */
  class DCLabel {
    var secrecy: Formula
    var integrity: Formula

    /** The label this object stands for. */
    function Value(): Label
      reads this
    {
      Label(secrecy, integrity)
    }

    /** DCLabel(): the public label. */
    constructor ()
      ensures Value() == Pub
    {
      secrecy := Components.True;
      integrity := Components.True;
    }

    /** DCLabel(const Component&, const Component&): both components, reduced. */
    constructor FromComponents(s: Components.Component, i: Components.Component)
      ensures Value() == Make(s.Value(), i.Value())
      ensures Reduced(Value()) && Equivalent(Value(), Label(s.Value(), i.Value()))
    {
      secrecy := s.Value();
      integrity := i.Value();
      new;
      DcReduce();
      MakeEquivalent(s.Value(), i.Value());
    }

    /** DCLabel(const DCLabel&): the same components. */
    constructor Copy(that: DCLabel)
      ensures Value() == that.Value()
    {
      secrecy := that.secrecy;
      integrity := that.integrity;
    }

    /** operator== for DCLabel: the same components. */
    predicate Equals(that: DCLabel)
      reads this, that
      ensures Equals(that) <==> Value() == that.Value()
    {
      secrecy == that.secrecy && integrity == that.integrity
    }

    /** operator!= for DCLabel. */
    predicate NotEquals(that: DCLabel)
      reads this, that
      ensures NotEquals(that) <==> !Equals(that)
    {
      secrecy != that.secrecy || integrity != that.integrity
    }

    /** dcReduce(): reduce both components in place. */
    method DcReduce()
      modifies this
      ensures Value() == Make(old(secrecy), old(integrity))
      ensures Reduced(Value()) && Equivalent(Value(), old(Value()))
    {
      MakeEquivalent(secrecy, integrity);
      secrecy := Components.Reduce(secrecy);
      integrity := Components.Reduce(integrity);
    }

    /** dcBottom() */
    static method DcBottom() returns (l: DCLabel)
      ensures fresh(l) && l.Value() == Bottom
    {
      l := new DCLabel();
      l.secrecy := Components.True;
      l.integrity := Components.False;
    }

    /** dcTop() */
    static method DcTop() returns (l: DCLabel)
      ensures fresh(l) && l.Value() == Top
    {
      l := new DCLabel();
      l.secrecy := Components.False;
      l.integrity := Components.True;
    }

    /** dcPub() */
    static method DcPub() returns (l: DCLabel)
      ensures fresh(l) && l.Value() == Pub
    {
      l := new DCLabel();
    }

    /** canFlowTo(const DCLabel&): this label is the source, that one the target. */
    predicate CanFlowTo(that: DCLabel)
      reads this, that
      ensures CanFlowTo(that) <==> Flows(Value(), that.Value())
    {
      Components.Implies(that.secrecy, secrecy) && Components.Implies(integrity, that.integrity)
    }

    /** canFlowTo(const DCLabel&, const DCLabel&): the first label is the source. */
    static predicate CanFlowBetween(src: DCLabel, tgt: DCLabel)
      reads src, tgt
      ensures CanFlowBetween(src, tgt) <==> src.CanFlowTo(tgt)
    {
      Components.Implies(tgt.secrecy, src.secrecy) && Components.Implies(src.integrity, tgt.integrity)
    }

    /** lub(const DCLabel&): conjoin the secrecy, disjoin the integrity, then reduce. */
    method Lub(that: DCLabel)
      modifies this
      ensures Value() == Join(old(Value()), old(that.Value()))
      ensures Flows(old(Value()), Value()) && Flows(old(that.Value()), Value())
    {
      JoinUpper(Value(), that.Value());
      secrecy := Components.And(secrecy, that.secrecy);
      integrity := Components.Or(integrity, that.integrity);
      DcReduce();
    }

    /** glb(const DCLabel&): disjoin the secrecy, conjoin the integrity, then reduce. */
    method Glb(that: DCLabel)
      modifies this
      ensures Value() == Meet(old(Value()), old(that.Value()))
      ensures Flows(Value(), old(Value())) && Flows(Value(), old(that.Value()))
    {
      MeetLower(Value(), that.Value());
      secrecy := Components.Or(secrecy, that.secrecy);
      integrity := Components.And(integrity, that.integrity);
      DcReduce();
    }

    /** lub(const DCLabel&, const DCLabel&): the instance lub applied to a copy of the first label. */
    static method LubOf(a: DCLabel, b: DCLabel) returns (r: DCLabel)
      ensures fresh(r) && r.Value() == Join(a.Value(), b.Value())
    {
      r := new DCLabel.Copy(a);
      r.Lub(b);
    }

    /** glb(const DCLabel&, const DCLabel&): the instance glb applied to a copy of the first label. */
    static method GlbOf(a: DCLabel, b: DCLabel) returns (r: DCLabel)
      ensures fresh(r) && r.Value() == Meet(a.Value(), b.Value())
    {
      r := new DCLabel.Copy(a);
      r.Glb(b);
    }
  }
}

# DCLabels in Dafny

This project models the label algebra of DCLabels, a scheme for decentralized
information-flow control.

- A **principal** is a string.
- A **clause** is a set of principals, read as their disjunction.
- A **component** is either `|False` or a set of clauses, read as their
  conjunction. The empty set is `|True`.
- A **DCLabel** pairs a secrecy component with an integrity component.
  Data may flow from a source label to a target label when the target's
  secrecy implies the source's secrecy, and the source's integrity implies
  the target's integrity.

The repository has two parts, and the model has both:

- `dclabel.cc` has code for clauses and components: construction, equality,
  the clause order, `isFalse`/`isTrue`, and the text the two `operator<<`
  write.
- `dclabel.h` declares the algebra without bodies: clause and component
  implication, `dcAnd`, `dcOr`, `dcReduce`, and the DCLabel constructors,
  lattice points, `canFlowTo`, `lub` and `glb`. These are specified from
  their declarations and comments:
  - clause implication is subset inclusion;
  - component implication is covering: every clause of the implied
    component has a subset among the implying component's clauses.

`dclabel.cc` does not include `dclabel.h`. It declares its own, smaller
`Clause` and `Component` classes with the same fields. The model uses one
type per entity and draws the members from both files.

Modules, one per file:

- `Principals` (`principals.dfy`): `std::string`'s `operator<` as `Less`, and
  the ascending order in which a `std::set<Principal>` is iterated
  (`Ascending`).
- `Output` (`output.dfy`): the loop both `operator<<` run. It writes each
  part, adds the separator while a countdown flag is non-zero, and so leaves
  no trailing separator.
- `Clauses` (`clauses.dfy`): the `Clause` datatype, its construction from an
  array, `==`, `!=`, `<=`, `<`, implication, the union clause that `dcOr`
  builds, text rendering, and the `std::set<Clause>` iteration order
  (`Sorted`).
- `Components` (`components.dfy`):
  - the value type `Formula` (`False | Conj(clauses)`) with the
    satisfaction reading `Sat`;
  - the pure operations `Implies`, `And`, `Or` and `Reduce` over it;
  - the class `Component`, with the source's two fields `DCFalse` and
    `DCFormula`, whose methods change them in place.
- `Labels` (`labels.dfy`): the value type `Label` with `Flows`, `Join` and
  `Meet` and the lattice laws, and the class `DCLabel` whose methods change
  its two components in place.
- `Scenarios` (`scenarios.dfy`): the demonstration driver's values and small
  worked examples.

## Model

| member | source | states |
|---|---|---|
| Principals.Less | dclabel.cc:8-9 | `std::string`'s `operator<`: compare character by character, and a proper prefix comes first. Its properties are in LessIsStrictTotalOrder. |
| Principals.LessIsStrictTotalOrder | dclabel.cc:8-9 | The order on principal strings is irreflexive, transitive and total, so a `std::set<Principal>` can hold principals. |
| Principals.Ascending | dclabel.cc:30 | The enumeration of a principal set has the set's size and exactly its elements, in strictly ascending order. |
| Principals.AscendingUnique | dclabel.cc:66-68 | Any strictly ascending sequence of exactly the set's elements is that enumeration, so the iteration order is fully determined. |
| Principals.AscendingInjective | dclabel.cc:30 | Two principal sets with the same enumeration are equal. |
| Clauses.FromArray | dclabel.cc:38-41 | `Clause(ps, len)` holds exactly the principals among the first `len` array elements, with duplicates collapsed, so it has at most `len` of them. |
| Clauses.Equal | dclabel.cc:55-57 | Two clauses are `==` exactly when their principal sets are equal. |
| Clauses.NotEqual | dclabel.cc:59-61 | `!=` is the negation of `==`. |
| Clauses.LexLess | dclabel.cc:49 | The comparison of two principal sets behind `c1.clause <= c2.clause`: lexicographic over the ascending sequences. Its properties are in LexTotal, LexTransitive, LexIrreflexive and LexAsymmetric. |
| Clauses.Leq | dclabel.cc:47-53 | Clause `<=`: the smaller set comes first, and for equal sizes the set that is not lexicographically greater. LessTrichotomy and LessTransitive carry its consequences. |
| Clauses.Less | dclabel.cc:43-45 | Clause `<`: `<=` and `!=`. LessIsStrictTotalOrder proves it a strict total order. |
| Clauses.LexTotal | dclabel.cc:49 | Two ascending principal sequences are equal, or one is lexicographically below the other. |
| Clauses.LexTransitive | dclabel.cc:49 | The lexicographic comparison of principal sequences is transitive. |
| Clauses.LessTrichotomy | dclabel.cc:43-53 | For clause `<` (size first, then lexicographic), exactly one of `c1 < c2`, `c1 == c2` and `c2 < c1` holds. |
| Clauses.LessTransitive | dclabel.cc:43-53 | Clause `<` is transitive, including when sizes tie and the lexicographic comparison decides. |
| Clauses.LessIsStrictTotalOrder | dclabel.cc:43-53 | Clause `<` is a strict total order, which a `std::set<Clause>` needs. |
| Clauses.Implies | dclabel.h:39 | `Clause::implies`: this principal set is a subset of the other's. ImpliesIsEntailment and ImpliesPartialOrder carry its meaning. |
| Clauses.ImpliesIsEntailment | dclabel.h:39 | Clause implication (subset) holds exactly when every set of present principals that satisfies the first clause also satisfies the second. |
| Clauses.ImpliesPartialOrder | dclabel.h:39 | Clause implication is reflexive, transitive and antisymmetric. |
| Clauses.Disjoin | dclabel.h:87-88 | The union clause is implied by both clauses it joins. |
| Clauses.DisjoinIsDisjunction | dclabel.h:87-88 | The union clause holds exactly when one of the two clauses holds. |
| Clauses.Text | dclabel.cc:64-74 | The text of a clause: `[`, the ascending principals joined by `" \/ "`, `]`. Clauses.Show is proved to produce it, and Scenarios.ClauseTexts evaluates it. |
| Clauses.Show | dclabel.cc:64-74 | A clause is written as `[`, then its principals in ascending order with `" \/ "` between them and none after the last, then `]`. |
| Clauses.Sorted | dclabel.cc:160-163 | The enumeration of a clause set has the set's size and exactly its clauses, in strictly increasing clause order. |
| Clauses.SortedUnique | dclabel.cc:160-163 | Any strictly sorted sequence of exactly the set's clauses is that enumeration. |
| Output.JoinSnoc | dclabel.cc:64-74 | Appending one more part to a joined text adds the separator and then the part. |
| Output.WriteJoined | dclabel.cc:66-72 | The countdown-flag loop writes the parts with the separator between consecutive parts and none after the last. |
| Components.Implies | dclabel.h:82-83 | `Component::implies`: the constant cases first, then every clause of b is implied by some clause of a. ImpliesConstants, ImpliesReflexive, ImpliesTransitive, ImpliesSound and ImpliesExact carry its meaning. |
| Components.ImpliesConstants | dclabel.h:82-83 | `\|False` implies every component, and every component implies `\|True`. `\|True` implies only `\|True`, and only `\|False` implies `\|False`. |
| Components.ImpliesReflexive | dclabel.h:82-83 | Every component implies itself. |
| Components.ImpliesTransitive | dclabel.h:82-83 | Component implication is transitive. |
| Components.ImpliesSound | dclabel.h:82-83 | When a implies b, every set of present principals that satisfies a satisfies b. |
| Components.ImpliesExact | dclabel.h:82-83 | Implication holds exactly when every set of present principals that satisfies a satisfies b. The one excluded case is a formula with the empty clause judged against `\|False`. |
| Components.EmptyClauseGap | dclabel.h:82-83 | A formula containing the empty clause is never satisfied, yet it does not imply `\|False`. |
| Components.And | dclabel.h:85-86 | The conjunction is satisfied exactly when both sides are. |
| Components.AndCommutes | dclabel.h:85-86 | The order of the two sides does not change the conjunction. |
| Components.AndLower | dclabel.h:85-86 | The conjunction implies both sides. |
| Components.AndGreatest | dclabel.h:85-86 | Whatever implies both sides implies their conjunction. |
| Components.AndAssociative | dclabel.h:85-86 | The grouping of a conjunction does not change it. |
| Components.Or | dclabel.h:87-88 | `dcOr`: `\|True` if either side is `\|True`, `\|False` as the identity, otherwise the pairwise unions. OrIsDisjunction, OrCommutes, OrUpper and OrLeast carry its meaning. |
| Components.Pairs | dclabel.h:87-88 | The pairwise unions contain the union of every clause of one side with every clause of the other, and nothing else. |
| Components.OrIsDisjunction | dclabel.h:87-88 | The disjunction (`\|True` absorbs, `\|False` is the identity, otherwise pairwise unions) is satisfied exactly when one of the two sides is. |
| Components.OrCommutes | dclabel.h:87-88 | The order of the two sides does not change the disjunction. |
| Components.OrUpper | dclabel.h:87-88 | Both sides imply their disjunction. |
| Components.OrLeast | dclabel.h:87-88 | The disjunction implies whatever both sides imply. |
| Components.OrAssociative | dclabel.h:87-88 | The two groupings of a disjunction imply each other. |
| Components.AndDistributesOverOr | dclabel.h:85-88 | `a and (b or c)` and `(a and b) or (a and c)` imply each other. |
| Components.OrDistributesOverAnd | dclabel.h:85-88 | `a or (b and c)` and `(a or b) and (a or c)` imply each other. |
| Components.MutualFromMeaning | dclabel.h:82-83 | Two formulas that have the same satisfying sets, and are `\|False` together, imply each other. |
| Components.Minimal | dclabel.h:90-91 | The minimal clauses are a subset of the clause set, and none of them is implied by a distinct clause of the set. |
| Components.MinimalBelow | dclabel.h:90-91 | Every clause of the set is implied by some minimal clause, so removing the redundant clauses loses nothing. |
| Components.Reduce | dclabel.h:90-91 | Reduction leaves `\|True` and `\|False` alone and keeps `\|False` exactly for `\|False`. It keeps a subset of the clauses, and no kept clause implies a distinct kept clause. |
| Components.ReduceEquivalent | dclabel.h:90-91 | The reduced formula and the original imply each other. |
| Components.ReduceKeepsMeaning | dclabel.h:90-91 | The reduced formula is satisfied by exactly the sets that satisfy the original. |
| Components.ReduceIdempotent | dclabel.h:90-91 | Reducing twice gives the same result as reducing once. |
| Components.ReduceCanonical | dclabel.h:90-91 | Formulas that imply each other reduce to the same formula. |
| Components.MinimalShared | dclabel.h:90-91 | When two clause sets cover each other, every minimal clause of one is a minimal clause of the other. |
| Components.ReducedEqualityIsEquivalence | dclabel.h:79-80 | For reduced components, structural equality is exactly mutual implication. |
| Components.Singleton | dclabel.h:74-75 | The documented singleton formula of a clause is neither `\|False` nor `\|True`. It is reduced, and it is satisfied exactly when the clause holds. |
| Components.StubLosesTheClause | dclabel.cc:127-136 | The stub's `\|False` result differs from the singleton formula of any non-empty clause. The singleton is satisfied by some set, while `\|False` never is. The singleton does not imply `\|False`. |
| Components.Text | dclabel.cc:153-170 | The text of a component: `\|False`, else `\|True`, else `{`, the clause texts in clause order joined by `" /\ "`, `}`. Component.Show is proved to produce it, and Scenarios.ComponentTexts evaluates it. |
| Components.ShowClauses | dclabel.cc:159-167 | The clause loop writes each clause's text with `" /\ "` between consecutive clauses and none after the last. |
| Components.Component.IsFalse | dclabel.cc:145-147 | `isFalse()` holds exactly when the component's value is `\|False`. |
| Components.Component.IsTrue | dclabel.cc:149-151 | `isTrue()` holds exactly when the value is `\|True`. It never holds together with `isFalse()`. |
| Components.Component.Equals | dclabel.h:79 | For components whose flag and clause set agree, `==` holds exactly when their values are equal. |
| Components.Component.NotEquals | dclabel.h:80 | `!=` is the negation of `==`. |
| Components.Component.constructor | dclabel.cc:112-114 | The default component is `\|False`. |
| Components.Component.DcFalse | dclabel.cc:116-118 | `dcFalse()` is `\|False`, satisfying `isFalse()` and not `isTrue()`. |
| Components.Component.DcTrue | dclabel.cc:120-125 | `dcTrue()` is `\|True`, satisfying `isTrue()` and not `isFalse()`. |
| Components.Component.DcFormulaOfClause | dclabel.cc:127-136 | As written, `dcFormula(const Clause&)` ignores the clause and returns `\|False`. |
| Components.Component.DcFormulaSingleton | dclabel.h:74-75 | The corrected constructor gives the clause's singleton formula, which is neither `\|False` nor `\|True`. |
| Components.Component.DcFormula | dclabel.cc:138-143 | `dcFormula(set)` has exactly the given clauses, is never `\|False`, and `isTrue()` holds exactly when the set is empty. |
| Components.Component.SetToDCFalse | dclabel.h:104-105 | Afterwards the component is `\|False` with no clauses. |
| Components.Component.SetToDCTrue | dclabel.h:106-107 | Afterwards the component is `\|True`. |
| Components.Component.SetTo | dclabel.h:108-109 | Afterwards the component has both of the other component's fields. |
| Components.Component.DcAnd | dclabel.h:85-86 | The new value is the conjunction of the old value and the other component's value. |
| Components.Component.DcOr | dclabel.h:87-88 | The new value is the disjunction of the old value and the other component's value. |
| Components.Component.DcReduce | dclabel.h:90-91 | A one-pass loop drops each clause that some distinct remaining clause implies. It leaves the flag alone, and the new value is the reduced old value. |
| Components.Component.Show | dclabel.cc:153-170 | The text is `\|False` first, else `\|True` for the empty clause set, else `{`, the clauses in clause order with `" /\ "` between, then `}`. |
| Labels.Flows | dclabel.h:140-142 | `canFlowTo(source, target)`: the target's secrecy implies the source's, and the source's integrity implies the target's. FlowsReflexive, FlowsTransitive and FlowsAntisymmetric carry its properties. |
| Labels.Bottom | dclabel.h:133-134 | The bottom label (`\|True`, `\|False`). BottomAndTop shows it flows to every label. |
| Labels.Top | dclabel.h:135-136 | The top label (`\|False`, `\|True`). BottomAndTop shows every label flows to it. |
| Labels.Pub | dclabel.h:137-138 | The public label (`\|True`, `\|True`), the value of a default DCLabel. |
| Labels.Make | dclabel.h:122-123 | Building a label from two components gives a reduced label. |
| Labels.MakeEquivalent | dclabel.h:122-123 | The built label and the unreduced pair flow to each other. |
| Labels.Join | dclabel.h:143-145 | The lub of two labels is reduced. |
| Labels.Meet | dclabel.h:146-148 | The glb of two labels is reduced. |
| Labels.ConstantsReduced | dclabel.h:133-138 | Bottom, top and the public label are already reduced. |
| Labels.FlowsReflexive | dclabel.h:140-142 | Every label can flow to itself. |
| Labels.FlowsTransitive | dclabel.h:140-142 | Can-flow-to is transitive. |
| Labels.FlowsAntisymmetric | dclabel.h:140-142 | Two reduced labels that flow to each other are equal. |
| Labels.BottomAndTop | dclabel.h:133-136 | Bottom flows to every label, and every label flows to top. |
| Labels.BottomAndTopUnique | dclabel.h:133-136 | A label that flows to all labels is equivalent to bottom, and one that all labels flow to is equivalent to top. |
| Labels.JoinUpper | dclabel.h:143-145 | Both inputs flow to their lub. |
| Labels.JoinLeast | dclabel.h:143-145 | The lub flows to every label that both inputs flow to. |
| Labels.MeetLower | dclabel.h:146-148 | The glb flows to both inputs. |
| Labels.MeetGreatest | dclabel.h:146-148 | Every label that flows to both inputs flows to their glb. |
| Labels.JoinCommutes | dclabel.h:143-145 | The order of the two inputs does not change the lub. |
| Labels.MeetCommutes | dclabel.h:146-148 | The order of the two inputs does not change the glb. |
| Labels.JoinIdempotent | dclabel.h:143-145 | `lub(l, l) == l` for a reduced label. |
| Labels.MeetIdempotent | dclabel.h:146-148 | `glb(l, l) == l` for a reduced label. |
| Labels.JoinAssociative | dclabel.h:143-145 | The lub of three labels does not depend on grouping. |
| Labels.MeetAssociative | dclabel.h:146-148 | The glb of three labels does not depend on grouping. |
| Labels.JoinAbsorbsMeet | dclabel.h:143-148 | The lub of a reduced label with its glb with anything is the label. |
| Labels.MeetAbsorbsJoin | dclabel.h:143-148 | The glb of a reduced label with its lub with anything is the label. |
| Labels.FlowsIffJoin | dclabel.h:140-145 | A label flows to a reduced label exactly when their lub is the second label. |
| Labels.DCLabel.constructor | dclabel.h:120-121 | The default label is the public label (`\|True`, `\|True`). |
| Labels.DCLabel.FromComponents | dclabel.h:122-123 | A label built from two components holds both components reduced, so it is reduced and equivalent to the pair. |
| Labels.DCLabel.Copy | dclabel.h:124-125 | The copy has the same components. |
| Labels.DCLabel.Equals | dclabel.h:127 | `==` holds exactly when both labels have the same value. |
| Labels.DCLabel.NotEquals | dclabel.h:128 | `!=` is the negation of `==`. |
| Labels.DCLabel.DcReduce | dclabel.h:130-131 | Both components are reduced in place. The label becomes reduced and stays equivalent to its old value. |
| Labels.DCLabel.DcBottom | dclabel.h:133-134 | `dcBottom()` is a new label (`\|True`, `\|False`). |
| Labels.DCLabel.DcTop | dclabel.h:135-136 | `dcTop()` is a new label (`\|False`, `\|True`). |
| Labels.DCLabel.DcPub | dclabel.h:137-138 | `dcPub()` is a new label equal to the default one. |
| Labels.DCLabel.CanFlowTo | dclabel.h:140-141 | The instance `canFlowTo` treats this label as the source and decides `Flows`. |
| Labels.DCLabel.CanFlowBetween | dclabel.h:142 | The static `canFlowTo` treats its first argument as the source and agrees with the instance form. |
| Labels.DCLabel.Lub | dclabel.h:143-144 | In place, the label becomes the lub of its old value and the other label, and both old values flow to it. |
| Labels.DCLabel.Glb | dclabel.h:146-147 | In place, the label becomes the glb of its old value and the other label, and it flows to both old values. |
| Labels.DCLabel.LubOf | dclabel.h:145 | The static lub is a new label whose value is the lub of the two inputs; it applies the instance lub to a copy. |
| Labels.DCLabel.GlbOf | dclabel.h:148 | The static glb is a new label whose value is the glb of the two inputs; it applies the instance glb to a copy. |
| Scenarios.DriverClausesOrdered | dclabel.cc:174-179 | `{a,b,c,f} < {a,b,c,g}` holds and the reverse does not. |
| Scenarios.Driver | dclabel.cc:173-192 | The driver's `cz`, built from the first four of five elements, orders after `c`. The three components it writes render as `\|False`, `\|True` and `\|False`. |
| Scenarios.ClauseTexts | dclabel.cc:64-74 | `{b, a}` renders as `[a \/ b]`, a single principal with no separator, and the empty clause as `[]`. |
| Scenarios.ComponentTexts | dclabel.cc:153-170 | `\|False`, `\|True`, and `{[a] /\ [b \/ c]}`: the smaller clause comes first and no separator trails. |
| Scenarios.ConjoinAndReduce | dclabel.h:85-91 | `{[a \/ b]}` and `{[a \/ b \/ c]}` conjoin and reduce to `{[a \/ b]}`. |
| Scenarios.DisjoinDistributes | dclabel.h:87-88 | `{[a]}` or `{[b] /\ [c]}` is `{[a \/ b] /\ [a \/ c]}`. |
| Scenarios.JoinOfTwoSecrets | dclabel.h:143-145 | The lub of (`{[a]}`, `\|True`) and (`{[b]}`, `\|True`) is (`{[a] /\ [b]}`, `\|True`). |
| Scenarios.PublicAndTopBottom | dclabel.h:133-142 | The public label flows to itself, top does not flow to bottom, and bottom flows to top. |
| Scenarios.LubOfTwoSecrets | dclabel.h:145 | The same lub, computed with `DCLabel` objects built from `Component` objects. |

## Left out

- `main` (dclabel.cc:173-192) is not modelled as a console program. Its
  values appear in `Scenarios.Driver`, which returns the text each output
  would produce; `std::cout` and `std::ostream` are left out.
- Both `operator<<` return the text as a `string` rather than writing it to a
  stream.
- `Clause(std::set<Principal>&)` (dclabel.cc:34-36) is the datatype
  constructor `Clauses.Clause`, and has no contract.
- `Clause()` (empty constructor), `Clause(const Clause&)` (copy constructor),
  `Clause::setTo` (replaces the principal set with the supplied one),
  `operator>` and `operator>=` on clauses (dclabel.h:22-46) are declared
  without a body. They are left out. The empty clause is `Clauses.Clause({})`,
  and a clause with another principal set is that set's `Clauses.Clause`.
- The copy constructor `Component(const Component&)` and the friend
  declarations are not modelled, since components are held by value. The
  `DCLabel` copy constructor is `Labels.DCLabel.Copy`.
- `Labels.DCLabel` holds its two components as `Formula` values rather than
  as `Component` objects. This mirrors C++ members held by value, and rules
  out sharing a component between labels.
- `Labels.DCLabel.Lub` and `Labels.DCLabel.Glb` update those values with the
  pure `And` and `Or`. They do not call `Component.DcAnd` and
  `Component.DcOr`.
- The conversion of `size() - 1` to `int` for an empty set (dclabel.cc:66, 161)
  is not modelled. The loop does not run for an empty set, so the flag's value
  is never read.
- The model orders principals by Unicode code point, where `std::string`
  compares bytes. The two agree for UTF-8 text, and the model does not
  represent raw bytes.
- `Components.Component.DcReduce` visits the clauses in an arbitrary order.
  The source gives no body. Its `ensures` fixes the result as the set of
  minimal clauses, so the result does not depend on the order.
- `Components.Component.Equals` compares the two fields as the declaration
  suggests. Its `ensures` speaks only about components whose flag and clause
  set agree (`Valid`), and every constructor and update keeps them agreeing.

## Findings

| source | as written | input that shows it | evidently intended | confidence | as-written member | corrected member |
|---|---|---|---|---|---|---|
| dclabel.cc:127-136 | `dcFormula(const Clause&)` has its insertion commented out. It returns a default component, which is `\|False`. | the clause `[a]`: the result is `\|False`, which implies everything and is never satisfied | the singleton formula `{[a]}` that the comment at dclabel.h:74 describes | not executed | Components.Component.DcFormulaOfClause, with Components.StubLosesTheClause | Components.Singleton, Components.Component.DcFormulaSingleton |

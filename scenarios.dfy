/**
  Worked examples: the values the demonstration driver builds (dclabel.cc:173-192)
  and small label computations, each checked against the model.
 */
module Scenarios {

  import Principals
  import Clauses
  import Components
  import Labels
  import Output

  type Clause = Clauses.Clause

  lemma AscendingABCF()
    ensures Principals.Ascending({"a", "b", "c", "f"}) == ["a", "b", "c", "f"]
  {
    Principals.AscendingUnique(["a", "b", "c", "f"], {"a", "b", "c", "f"});
  }

  lemma AscendingABCG()
    ensures Principals.Ascending({"a", "b", "c", "g"}) == ["a", "b", "c", "g"]
  {
    Principals.AscendingUnique(["a", "b", "c", "g"], {"a", "b", "c", "g"});
  }

  /** After the shared prefix a, b, c, "f" comes before "g". */
  lemma LexABCFBeforeABCG()
    ensures Clauses.LexLess(["a", "b", "c", "f"], ["a", "b", "c", "g"])
    ensures !Clauses.LexLess(["a", "b", "c", "g"], ["a", "b", "c", "f"])
  {
    Principals.LessIrreflexive("a");
    Principals.LessIrreflexive("b");
    Principals.LessIrreflexive("c");
    assert Clauses.LexLess(["f"], ["g"]) && !Clauses.LexLess(["g"], ["f"]);
    assert ["c", "f"][1..] == ["f"] && ["c", "g"][1..] == ["g"];
    assert Clauses.LexLess(["c", "f"], ["c", "g"]) && !Clauses.LexLess(["c", "g"], ["c", "f"]);
    assert ["b", "c", "f"][1..] == ["c", "f"] && ["b", "c", "g"][1..] == ["c", "g"];
    assert Clauses.LexLess(["b", "c", "f"], ["b", "c", "g"]) && !Clauses.LexLess(["b", "c", "g"], ["b", "c", "f"]);
    assert ["a", "b", "c", "f"][1..] == ["b", "c", "f"] && ["a", "b", "c", "g"][1..] == ["b", "c", "g"];
  }

  /** c < cz for the driver's clauses: same size, and "f" comes before "g". */
  lemma DriverClausesOrdered()
    ensures Clauses.Less(Clauses.Clause({"a", "b", "c", "f"}), Clauses.Clause({"a", "b", "c", "g"}))
    ensures !Clauses.Less(Clauses.Clause({"a", "b", "c", "g"}), Clauses.Clause({"a", "b", "c", "f"}))
  {
    var x, y := Clauses.Clause({"a", "b", "c", "f"}), Clauses.Clause({"a", "b", "c", "g"});
    AscendingABCF();
    AscendingABCG();
    assert |x.principals| == 4 == |y.principals|;
    LexABCFBeforeABCG();
    assert "f" in x.principals && "f" !in y.principals;
  }

  /**
    The driver: c from all four elements of {"a","b","c","f"}, cz from the first four
    of {"a","b","c","g","f"}, then c < cz and the text of the default component, of
    dcTrue() and of dcFormula(c) as written.
   */
  method Driver() returns (less: bool, o1: string, o2: string, o3: string)
    ensures less
    ensures o1 == "|False" && o2 == "|True" && o3 == "|False"
  {
    var ps := new Principals.Principal[4]["a", "b", "c", "f"];
    var ps2 := new Principals.Principal[5]["a", "b", "c", "g", "f"];
    var c := Clauses.FromArray(ps, 4);
    var cz := Clauses.FromArray(ps2, 4);
    assert c.principals == {"a", "b", "c", "f"} by {
      assert ps[..4] == ["a", "b", "c", "f"];
    }
    assert cz.principals == {"a", "b", "c", "g"} by {
      assert ps2[..4] == ["a", "b", "c", "g"];
    }
    DriverClausesOrdered();
    less := Clauses.Less(c, cz);
    var c1 := new Components.Component();
    var c2 := new Components.Component.DcTrue();
    var c3 := new Components.Component.DcFormulaOfClause(c);
    o1 := c1.Show();
    o2 := c2.Show();
    o3 := c3.Show();
  }

  /** Clause text: principals ascending with " \/ " between, and "[]" for the empty clause. */
  lemma ClauseTexts()
    ensures Clauses.Text(Clauses.Clause({"b", "a"})) == "[a \\/ b]"
    ensures Clauses.Text(Clauses.Clause({"c"})) == "[c]"
    ensures Clauses.Text(Clauses.Clause({})) == "[]"
  {
    Principals.AscendingUnique(["a", "b"], {"b", "a"});
    Principals.AscendingUnique(["c"], {"c"});
  }

  /** Component text: the constants, and the clauses smallest first with " /\ " between. */
  lemma ComponentTexts()
    ensures Components.Text(Components.False) == "|False"
    ensures Components.Text(Components.True) == "|True"
    ensures Components.Text(Components.Conj({Clauses.Clause({"b", "c"}), Clauses.Clause({"a"})})) == "{[a] /\\ [b \\/ c]}"
  {
    var a, bc := Clauses.Clause({"a"}), Clauses.Clause({"b", "c"});
    assert a in {bc, a};
    TextOfClauses({bc, a});
    SortedSmallestFirst(a, bc);
    TextsOfSorted(a, bc);
    JoinTwoClauseTexts();
  }

  lemma TextOfClauses(cs: set<Clause>)
    requires cs != {}
    ensures Components.Text(Components.Conj(cs)) == "{" + Output.Join(Components.Texts(Clauses.Sorted(cs)), Components.Separator) + "}"
  {
  }

  lemma JoinTwoClauseTexts()
    ensures Output.Join(["[a]", "[b \\/ c]"], Components.Separator) == "[a] /\\ [b \\/ c]"
  {
    var parts := ["[a]", "[b \\/ c]"];
    assert parts[1..] == ["[b \\/ c]"];
  }

  lemma TextsOfSorted(a: Clause, bc: Clause)
    requires a == Clauses.Clause({"a"}) && bc == Clauses.Clause({"b", "c"})
    ensures Components.Texts([a, bc]) == ["[a]", "[b \\/ c]"]
  {
    ClauseTextsOfParts();
    assert [a, bc][1..] == [bc];
  }

  lemma SortedSmallestFirst(a: Clause, bc: Clause)
    requires a == Clauses.Clause({"a"}) && bc == Clauses.Clause({"b", "c"})
    ensures Clauses.Sorted({bc, a}) == [a, bc]
  {
    assert |a.principals| == 1 && |bc.principals| == 2;
    assert Clauses.Less(a, bc);
    Clauses.SortedUnique([a, bc], {bc, a});
  }

  lemma ClauseTextsOfParts()
    ensures Clauses.Text(Clauses.Clause({"a"})) == "[a]"
    ensures Clauses.Text(Clauses.Clause({"b", "c"})) == "[b \\/ c]"
  {
    Principals.AscendingUnique(["a"], {"a"});
    Principals.AscendingUnique(["b", "c"], {"b", "c"});
  }

  /** {[a \/ b]} and {[a \/ b \/ c]} conjoin to both clauses, which reduce to {[a \/ b]}. */
  lemma ConjoinAndReduce()
    ensures Components.Reduce(Components.And(Components.Singleton(Clauses.Clause({"a", "b"})), Components.Singleton(Clauses.Clause({"a", "b", "c"}))))
         == Components.Conj({Clauses.Clause({"a", "b"})})
  {
    var ab, abc := Clauses.Clause({"a", "b"}), Clauses.Clause({"a", "b", "c"});
    assert Components.Redundant(abc, {ab, abc});
    assert !Components.Redundant(ab, {ab, abc}) by {
      assert "c" !in ab.principals;
    }
    assert Components.Minimal({ab, abc}) == {ab};
  }

  /** Disjoining {[a]} with {[b] /\ [c]} distributes into {[a \/ b] /\ [a \/ c]}. */
  lemma DisjoinDistributes()
    ensures Components.Or(Components.Singleton(Clauses.Clause({"a"})), Components.Conj({Clauses.Clause({"b"}), Clauses.Clause({"c"})}))
         == Components.Conj({Clauses.Clause({"a", "b"}), Clauses.Clause({"a", "c"})})
  {
    var a, b, c := Clauses.Clause({"a"}), Clauses.Clause({"b"}), Clauses.Clause({"c"});
    assert Clauses.Disjoin(a, b) == Clauses.Clause({"a", "b"});
    assert Clauses.Disjoin(a, c) == Clauses.Clause({"a", "c"});
    assert Components.Pairs({a}, {b, c}) == {Clauses.Disjoin(a, b), Clauses.Disjoin(a, c)};
  }

  /** The join of ({[a]}, |True) and ({[b]}, |True) is ({[a] /\ [b]}, |True): distinct clauses do not merge. */
  lemma JoinOfTwoSecrets()
    ensures Labels.Join(Labels.Label(Components.Singleton(Clauses.Clause({"a"})), Components.True),
                        Labels.Label(Components.Singleton(Clauses.Clause({"b"})), Components.True))
         == Labels.Label(Components.Conj({Clauses.Clause({"a"}), Clauses.Clause({"b"})}), Components.True)
  {
    var a, b := Clauses.Clause({"a"}), Clauses.Clause({"b"});
    assert !Components.Redundant(a, {a, b}) by {
      assert "a" !in b.principals;
    }
    assert !Components.Redundant(b, {a, b}) by {
      assert "b" !in a.principals;
    }
    assert Components.Minimal({a, b}) == {a, b};
  }

  /** The public label flows to itself; the top label does not flow to the bottom one. */
  lemma PublicAndTopBottom()
    ensures Labels.Flows(Labels.Pub, Labels.Pub)
    ensures !Labels.Flows(Labels.Top, Labels.Bottom)
    ensures Labels.Flows(Labels.Bottom, Labels.Top)
  {
    Labels.BottomAndTop(Labels.Top);
  }

  /** The static lub over labels built from components, and the flows it permits. */
  method LubOfTwoSecrets() returns (r: Labels.DCLabel)
    ensures r.Value() == Labels.Label(Components.Conj({Clauses.Clause({"a"}), Clauses.Clause({"b"})}), Components.True)
  {
    var sa := new Components.Component.DcFormulaSingleton(Clauses.Clause({"a"}));
    var sb := new Components.Component.DcFormulaSingleton(Clauses.Clause({"b"}));
    var t := new Components.Component.DcTrue();
    var la := new Labels.DCLabel.FromComponents(sa, t);
    var lb := new Labels.DCLabel.FromComponents(sb, t);
    assert la.Value() == Labels.Label(Components.Singleton(Clauses.Clause({"a"})), Components.True);
    assert lb.Value() == Labels.Label(Components.Singleton(Clauses.Clause({"b"})), Components.True);
    r := Labels.DCLabel.LubOf(la, lb);
    JoinOfTwoSecrets();
    assert la.CanFlowTo(r) && Labels.DCLabel.CanFlowBetween(lb, r) by {
      Labels.JoinUpper(la.Value(), lb.Value());
    }
  }
}

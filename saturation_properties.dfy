/**
 Properties of the saturation loop of `resolution` (KB_to_CNF.py:108-122): what
 its answer means round by round, how the budget of rounds matters, the two
 edge cases of line 119, a list on which the loop never stops, and how the
 program as written relates to the model.
 */
module SaturationProperties {
  import opened Literals
  import opened Resolvents
  import opened Saturation

  /** Every round before round `n` went round again and round `n` answered `o`. */
  ghost predicate AnswersInRound(cs: seq<Clause>, n: nat, o: Outcome)
  {
    && (forall m: nat :: m < n ==> Continues(Iterate(cs, m)))
    && !Continues(Iterate(cs, n))
    && o == (if FindsEmptyClause(Iterate(cs, n)) then Contradiction else Saturated)
  }

  /**
   The loop answers `Contradiction` (or `Saturated`) exactly when, within the
   budget, a round gives that answer after all earlier rounds went round again.
   */
  lemma {:induction false} RunAnswers(cs: seq<Clause>, fuel: nat, o: Outcome)
    requires o != OutOfFuel
    ensures Run(cs, fuel) == o <==> exists n: nat :: n < fuel && AnswersInRound(cs, n, o)
    decreases fuel
  {
    if fuel > 0 {
      RunRound(cs, fuel);
      assert Iterate(cs, 0) == cs;
      if !Continues(cs) {
        if Run(cs, fuel) == o {
          assert AnswersInRound(cs, 0, o);
        }
      } else {
        RunAnswers(Next(cs), fuel - 1, o);
        if Run(cs, fuel) == o {
          var n: nat :| n < fuel - 1 && AnswersInRound(Next(cs), n, o);
          forall m: nat | m < n + 1 ensures Continues(Iterate(cs, m)) {
            if m > 0 {
              assert Iterate(cs, m) == Iterate(Next(cs), m - 1);
            }
          }
          assert Iterate(cs, n + 1) == Iterate(Next(cs), n);
          assert AnswersInRound(cs, n + 1, o);
        }
        forall n: nat | n < fuel && AnswersInRound(cs, n, o) ensures Run(cs, fuel) == o {
          if n > 0 {
            forall m: nat | m < n - 1 ensures Continues(Iterate(Next(cs), m)) {
              assert Iterate(cs, m + 1) == Iterate(Next(cs), m);
            }
            assert Iterate(cs, n) == Iterate(Next(cs), n - 1);
            assert AnswersInRound(Next(cs), n - 1, o);
          }
        }
      }
    }
  }

  /** The loop runs out of fuel exactly when every round within the budget goes round again. */
  lemma {:induction false} RunOutOfFuel(cs: seq<Clause>, fuel: nat)
    ensures Run(cs, fuel) == OutOfFuel <==> forall m: nat :: m < fuel ==> Continues(Iterate(cs, m))
    decreases fuel
  {
    if fuel > 0 {
      RunRound(cs, fuel);
      assert Iterate(cs, 0) == cs;
      if !Continues(cs) {
        assert Run(cs, fuel) != OutOfFuel;
        assert !Continues(Iterate(cs, 0));
      } else {
        RunOutOfFuel(Next(cs), fuel - 1);
        if forall m: nat :: m < fuel - 1 ==> Continues(Iterate(Next(cs), m)) {
          forall m: nat | m < fuel ensures Continues(Iterate(cs, m)) {
            if m > 0 {
              assert Iterate(cs, m) == Iterate(Next(cs), m - 1);
            }
          }
          assert Run(cs, fuel) == OutOfFuel;
        } else {
          var m: nat :| m < fuel - 1 && !Continues(Iterate(Next(cs), m));
          assert Iterate(cs, m + 1) == Iterate(Next(cs), m);
          assert m + 1 < fuel && !Continues(Iterate(cs, m + 1));
          assert !(forall m': nat :: m' < fuel ==> Continues(Iterate(cs, m')));
          assert Run(cs, fuel) != OutOfFuel;
        }
      }
    }
  }

  /** An answer found within a budget stays the answer under any larger budget. */
  lemma {:induction false} MoreFuelSameAnswer(cs: seq<Clause>, fuel: nat, more: nat)
    requires fuel <= more && Run(cs, fuel) != OutOfFuel
    ensures Run(cs, more) == Run(cs, fuel)
    decreases fuel
  {
    RunRound(cs, fuel);
    RunRound(cs, more);
    if Continues(cs) {
      MoreFuelSameAnswer(Next(cs), fuel - 1, more - 1);
    }
  }

  /**
   When no two clauses of the list have a complementary pair, the round
   produces no resolvent, the test of line 119 holds vacuously and the loop
   answers `Saturated`.
   */
  lemma NoComplementsSaturate(cs: seq<Clause>, fuel: nat)
    requires fuel > 0
    requires forall i: nat, j: nat :: i < j < |cs| ==> ComplementaryPairs(cs[i], cs[j]) == {}
    ensures NewClauses(cs) == {}
    ensures Run(cs, fuel) == Saturated
  {
    forall i: nat, j: nat | i < j < |cs| ensures ResolventSet(cs[i], cs[j]) == {} {
      assert ComplementaryPairs(cs[i], cs[j]) == {};
    }
  }

  /** Line 122 keeps exactly the entries of the list that are not new clauses. */
  lemma {:induction false} RemainingMembers(cs: seq<Clause>, newClauses: set<Clause>, c: Clause)
    ensures c in Remaining(cs, newClauses) <==> c in cs && c !in newClauses
    decreases |cs|
  {
    if cs != [] {
      RemainingMembers(cs[..|cs| - 1], newClauses, c);
      assert cs == cs[..|cs| - 1] + [cs[|cs| - 1]];
    }
  }

  /** Line 122 keeps the whole list when no entry equals a new clause. */
  lemma {:induction false} RemainingUntouched(cs: seq<Clause>, newClauses: set<Clause>)
    requires forall k :: 0 <= k < |cs| ==> cs[k] !in newClauses
    ensures Remaining(cs, newClauses) == cs
    decreases |cs|
  {
    if cs != [] {
      RemainingUntouched(cs[..|cs| - 1], newClauses);
      assert cs == cs[..|cs| - 1] + [cs[|cs| - 1]];
    }
  }

  /**
   A round that goes round again without any clause of the list being a new
   clause leaves the list unchanged, so every later round repeats it and the
   loop never answers, whatever the budget.
   */
  lemma {:induction false} StuckListNeverAnswers(cs: seq<Clause>, fuel: nat)
    requires Continues(cs)
    requires forall k :: 0 <= k < |cs| ==> cs[k] !in NewClauses(cs)
    ensures Next(cs) == cs
    ensures Run(cs, fuel) == OutOfFuel
    decreases fuel
  {
    RemainingUntouched(cs, NewClauses(cs));
    if fuel > 0 {
      StuckListNeverAnswers(cs, fuel - 1);
    }
  }

  // ---------------------------------------------------------------------------
  // What a `Contradiction` answer means.
  // ---------------------------------------------------------------------------

  /** No clause of the list holds a literal together with its complement. */
  ghost predicate TautologyFree(cs: seq<Clause>)
  {
    forall k, a, b :: 0 <= k < |cs| && a in cs[k] && b in cs[k] ==> !Complementary(a, b)
  }

  /** Every list the loop reaches holds only clauses of the list it started from. */
  lemma {:induction false} IterateWithin(cs: seq<Clause>, rounds: nat, c: Clause)
    requires c in Iterate(cs, rounds)
    ensures c in cs
    decreases rounds
  {
    if rounds > 0 {
      IterateWithin(Next(cs), rounds - 1, c);
      RemainingMembers(cs, NewClauses(cs), c);
    }
  }

  /**
   On a list without tautologies the answer `Contradiction` is sound: the list
   is unsatisfiable. The loop only ever resolves clauses of the original list,
   and on such clauses the resolvent of line 129 is the textbook one.
   */
  lemma RunSound(cs: seq<Clause>, fuel: nat)
    requires TautologyFree(cs)
    requires Run(cs, fuel) == Contradiction
    ensures !Satisfiable(cs)
  {
    RunAnswers(cs, fuel, Contradiction);
    var n: nat :| n < fuel && AnswersInRound(cs, n, Contradiction);
    var ds := Iterate(cs, n);
    var i: nat, j: nat :| i < j < |ds| && EmptyResolventAt(ds, i, j);
    var p :| p in ComplementaryPairs(ds[i], ds[j]) && Resolvent(ds[i], ds[j], p.0, p.1) == {};
    IterateWithin(cs, n, ds[i]);
    IterateWithin(cs, n, ds[j]);
    var ki :| 0 <= ki < |cs| && cs[ki] == ds[i];
    var kj :| 0 <= kj < |cs| && cs[kj] == ds[j];
    assert p.1 in cs[ki] ==> !Complementary(p.0, p.1);
    assert p.0 in cs[kj] ==> !Complementary(p.0, p.1);
    ResolventIsStandardWhen(ds[i], ds[j], p.0, p.1);
    forall trueAtoms: set<string> | SatisfiesAll(trueAtoms, cs) ensures false {
      assert SatisfiesClause(trueAtoms, cs[ki]) && SatisfiesClause(trueAtoms, cs[kj]);
      StandardResolventSound(ds[i], ds[j], p.0, p.1, trueAtoms);
    }
  }

  // ---------------------------------------------------------------------------
  // Small clause lists.
  // ---------------------------------------------------------------------------

  /** The pair `(p, ¬p)` is the only complementary pair of `{p, ...}` and `{¬p, ...}` below. */
  lemma UnitPairs()
    ensures ComplementaryPairs({"p"}, {"¬p"}) == {("p", "¬p")}
  {
    ComplementaryFacts("p", "p");
    ComplementaryFacts("¬p", "¬p");
    assert Negated("p") == "¬p";
  }

  /** `{p}` and `{¬p}` contradict each other in the first round. */
  lemma UnitClausesContradict(fuel: nat)
    requires fuel > 0
    ensures Run([{"p"}, {"¬p"}], fuel) == Contradiction
  {
    var cs: seq<Clause> := [{"p"}, {"¬p"}];
    UnitPairs();
    assert Resolvent(cs[0], cs[1], "p", "¬p") == {};
    assert EmptyResolventAt(cs, 0, 1);
  }

  /** `{P(a)}` and `{Q(a)}` have nothing to resolve, and the loop answers `Saturated`. */
  lemma DistinctAtomsSaturate(fuel: nat)
    requires fuel > 0
    ensures Run([{"P(a)"}, {"Q(a)"}], fuel) == Saturated
  {
    var cs: seq<Clause> := [{"P(a)"}, {"Q(a)"}];
    ComplementaryFacts("P(a)", "Q(a)");
    assert ComplementaryPairs(cs[0], cs[1]) == {};
    NoComplementsSaturate(cs, fuel);
  }

  /** The one complementary pair of `{p, q}` and `{¬p, r}`, and its resolvent `{q, r}`. */
  lemma StuckExamplePairs()
    ensures ComplementaryPairs({"p", "q"}, {"¬p", "r"}) == {("p", "¬p")}
    ensures ResolventSet({"p", "q"}, {"¬p", "r"}) == {{"q", "r"}}
  {
    assert Negated("p") == "¬p";
    ComplementaryFacts("p", "r");
    ComplementaryFacts("q", "r");
    ComplementaryFacts("p", "p");
    ComplementaryFacts("q", "¬p");
    assert Negated("q") != "¬p" by {
      assert Negated("q")[1] == 'q';
    }
    assert !Complementary("q", "¬p");
    assert Resolvent({"p", "q"}, {"¬p", "r"}, "p", "¬p") == {"q", "r"};
  }

  /**
   `{p, q}` and `{¬p, r}` are satisfiable, and the loop never answers on them:
   their resolvent `{q, r}` is not a subset of `{p, q}`, and as neither clause
   equals it, every round starts from the same list.
   */
  lemma SatisfiableListNeverAnswers(fuel: nat)
    ensures SatisfiesAll({"p", "r"}, [{"p", "q"}, {"¬p", "r"}])
    ensures Run([{"p", "q"}, {"¬p", "r"}], fuel) == OutOfFuel
  {
    var cs: seq<Clause> := [{"p", "q"}, {"¬p", "r"}];
    StuckExamplePairs();
    assert Value("p", {"p", "r"}) && Value("r", {"p", "r"});
    assert SatisfiesClause({"p", "r"}, cs[0]) && SatisfiesClause({"p", "r"}, cs[1]);
    var qr: Clause := {"q", "r"};
    assert qr in NewClauses(cs) by {
      assert 0 < 1 < |cs| && qr in ResolventSet(cs[0], cs[1]);
    }
    forall c | c in NewClauses(cs) ensures c == qr {
      var i: nat, j: nat :| i < j < |cs| && c in ResolventSet(cs[i], cs[j]);
      assert i == 0 && j == 1;
    }
    assert NewClauses(cs) == {qr};
    assert !FindsEmptyClause(cs) by {
      forall i: nat, j: nat | i < j < |cs| ensures !EmptyResolventAt(cs, i, j) {
        assert i == 0 && j == 1;
        assert {} != qr;
      }
    }
    assert !NewWithinAll(cs, NewClauses(cs)) by {
      assert cs[0] in cs && qr in NewClauses(cs);
      assert "r" in qr && "r" !in cs[0];
    }
    assert cs[0] != qr by { assert "p" in cs[0]; }
    assert cs[1] != qr by { assert "¬p" in cs[1]; }
    StuckListNeverAnswers(cs, fuel);
  }

  /** The complementary pairs among the clauses `{p}`, `{¬p, q}` and `{¬q}`. */
  lemma ChainPairs()
    ensures ComplementaryPairs({"p"}, {"¬p", "q"}) == {("p", "¬p")}
    ensures ComplementaryPairs({"p"}, {"¬q"}) == {}
    ensures ComplementaryPairs({"¬p", "q"}, {"¬q"}) == {("q", "¬q")}
  {
    assert Negated("p") == "¬p" && Negated("q") == "¬q";
    assert Negated("p") != "¬q" by { assert Negated("p")[1] == 'p'; }
    assert Negated("q") != "¬p" by { assert Negated("q")[1] == 'q'; }
    ComplementaryFacts("p", "p");
    ComplementaryFacts("p", "q");
    ComplementaryFacts("p", "¬q");
    ComplementaryFacts("¬p", "¬q");
    ComplementaryFacts("q", "¬q");
    assert !Complementary("p", "¬q");
    assert !Complementary("q", "p");
  }

  /** `{p}`, `{¬p, q}`, `{¬q}` is satisfied by no valuation. */
  lemma ChainUnsatisfiable()
    ensures !Satisfiable([{"p"}, {"¬p", "q"}, {"¬q"}])
  {
    var cs: seq<Clause> := [{"p"}, {"¬p", "q"}, {"¬q"}];
    assert "¬p"[1..] == "p" && "¬q"[1..] == "q";
    forall trueAtoms: set<string> ensures !SatisfiesAll(trueAtoms, cs) {
      if "p" !in trueAtoms {
        assert !SatisfiesClause(trueAtoms, cs[0]);
      } else if "q" in trueAtoms {
        assert !SatisfiesClause(trueAtoms, cs[2]);
      } else {
        assert !SatisfiesClause(trueAtoms, cs[1]);
      }
    }
  }

  /** The one round on `{p}`, `{¬p, q}`, `{¬q}`: new clauses `{q}` and `{¬p}`, none empty. */
  lemma ChainRound()
    ensures NewClauses([{"p"}, {"¬p", "q"}, {"¬q"}]) == {{"q"}, {"¬p"}}
    ensures !FindsEmptyClause([{"p"}, {"¬p", "q"}, {"¬q"}])
  {
    var cs: seq<Clause> := [{"p"}, {"¬p", "q"}, {"¬q"}];
    ChainPairs();
    var q: Clause, notP: Clause := {"q"}, {"¬p"};
    assert ResolventSet(cs[0], cs[1]) == {q} by {
      assert Resolvent(cs[0], cs[1], "p", "¬p") == q;
    }
    assert ResolventSet(cs[0], cs[2]) == {};
    assert ResolventSet(cs[1], cs[2]) == {notP} by {
      assert Resolvent(cs[1], cs[2], "q", "¬q") == notP;
    }
    assert q in NewClauses(cs) by { assert 0 < 1 < |cs| && q in ResolventSet(cs[0], cs[1]); }
    assert notP in NewClauses(cs) by { assert 1 < 2 < |cs| && notP in ResolventSet(cs[1], cs[2]); }
    forall c | c in NewClauses(cs) ensures c == q || c == notP {
      var i: nat, j: nat :| i < j < |cs| && c in ResolventSet(cs[i], cs[j]);
      assert (i == 0 && j == 1) || (i == 0 && j == 2) || (i == 1 && j == 2);
    }
    forall i: nat, j: nat | i < j < |cs| ensures !EmptyResolventAt(cs, i, j) {
      assert (i == 0 && j == 1) || (i == 0 && j == 2) || (i == 1 && j == 2);
      assert {} != q && {} != notP;
    }
  }

  /**
   The loop is not refutation-complete: `{p}`, `{¬p, q}`, `{¬q}` is
   unsatisfiable, yet its resolvents `{q}` and `{¬p}` are never added to the
   list (lines 121-122), and the loop never answers, whatever the budget.
   */
  lemma UnsatisfiableListNeverAnswers(fuel: nat)
    ensures !Satisfiable([{"p"}, {"¬p", "q"}, {"¬q"}])
    ensures Run([{"p"}, {"¬p", "q"}, {"¬q"}], fuel) == OutOfFuel
  {
    var cs: seq<Clause> := [{"p"}, {"¬p", "q"}, {"¬q"}];
    ChainUnsatisfiable();
    ChainRound();
    var q: Clause, notP: Clause := {"q"}, {"¬p"};
    assert !NewWithinAll(cs, NewClauses(cs)) by {
      assert cs[0] in cs && q in NewClauses(cs) && "q" !in cs[0];
    }
    assert cs[0] != q && cs[0] != notP by { assert "p" in cs[0]; }
    assert cs[1] != q && cs[1] != notP by { assert "¬p" in cs[1] && "q" in cs[1]; }
    assert cs[2] != q && cs[2] != notP by { assert "¬q" in cs[2]; }
    StuckListNeverAnswers(cs, fuel);
  }

  /**
   With the resolution rule of line 129 the loop refutes a satisfiable list:
   `{¬p, p}` and `{p}` are both true when `p` is, yet the first round finds the
   empty clause.
   */
  lemma TautologyRefutedAsWritten(fuel: nat)
    requires fuel > 0
    ensures Satisfiable([{"¬p", "p"}, {"p"}])
    ensures SatisfiesAll({"p"}, [{"¬p", "p"}, {"p"}])
    ensures Run([{"¬p", "p"}, {"p"}], fuel) == Contradiction
  {
    var cs: seq<Clause> := [{"¬p", "p"}, {"p"}];
    TautologyYieldsEmptyResolvent();
    assert EmptyResolventAt(cs, 0, 1);
    assert SatisfiesAll({"p"}, cs);
  }

  /**
   With the textbook rule instead, an empty resolvent of two clauses of the
   list is a refutation: no valuation makes every clause of the list true.
   */
  lemma StandardEmptyResolventRefutes(cs: seq<Clause>, i: nat, j: nat, li: Literal, lj: Literal)
    requires i < j < |cs| && li in cs[i] && lj in cs[j] && Complementary(li, lj)
    requires StandardResolvent(cs[i], cs[j], li, lj) == {}
    ensures !Satisfiable(cs)
  {
    forall trueAtoms: set<string> | SatisfiesAll(trueAtoms, cs) ensures false {
      StandardResolventSound(cs[i], cs[j], li, lj, trueAtoms);
    }
  }

  // ---------------------------------------------------------------------------
  // The program as written against the model.
  // ---------------------------------------------------------------------------

  /** The scan that starts at pair `(i, j)` answers as the pairs from `(i, j)` on dictate. */
  lemma {:induction false} AsWrittenFromFacts(cs: seq<Clause>, i: nat, j: nat)
    requires i < j
    ensures AsWrittenFrom(cs, i, j) == ReturnsTrue ==> FindsEmptyClause(cs)
    ensures AsWrittenFrom(cs, i, j) == ReturnsFalse <==>
              forall i': nat, j': nat :: i' < j' < |cs| && (i < i' || (i == i' && j <= j')) ==>
                ComplementaryPairs(cs[i'], cs[j']) == {}
    decreases |cs| - i, |cs| - j
  {
    if i >= |cs| {
    } else if j >= |cs| {
      AsWrittenFromFacts(cs, i + 1, i + 2);
    } else if ComplementaryPairs(cs[i], cs[j]) == {} {
      AsWrittenFromFacts(cs, i, j + 1);
    } else if EmptyResolventAt(cs, i, j) {
    } else {
    }
  }

  /** Some pair has resolvents exactly when `new_clauses` ends up non-empty. */
  lemma NewClausesEmpty(cs: seq<Clause>)
    ensures NewClauses(cs) == {} <==>
              forall i: nat, j: nat :: i < j < |cs| ==> ComplementaryPairs(cs[i], cs[j]) == {}
  {
    if !forall i: nat, j: nat :: i < j < |cs| ==> ComplementaryPairs(cs[i], cs[j]) == {} {
      var i: nat, j: nat :| i < j < |cs| && ComplementaryPairs(cs[i], cs[j]) != {};
      var p :| p in ComplementaryPairs(cs[i], cs[j]);
      assert Resolvent(cs[i], cs[j], p.0, p.1) in ResolventSet(cs[i], cs[j]);
      assert Resolvent(cs[i], cs[j], p.0, p.1) in NewClauses(cs);
    } else {
      forall i: nat, j: nat | i < j < |cs| ensures ResolventSet(cs[i], cs[j]) == {} {
        assert ComplementaryPairs(cs[i], cs[j]) == {};
      }
    }
  }

  /**
   Where the program as written does not fail, the model agrees with it: it
   returns `False` exactly when no pair has resolvents, and then the model
   answers `Saturated`; when it returns `True`, the model answers
   `Contradiction`.
   */
  lemma AsWrittenAgreesUnlessTypeError(cs: seq<Clause>, fuel: nat)
    requires fuel > 0
    ensures AsWrittenResolution(cs) == ReturnsFalse <==> NewClauses(cs) == {}
    ensures AsWrittenResolution(cs) == ReturnsFalse ==> Run(cs, fuel) == Saturated
    ensures AsWrittenResolution(cs) == ReturnsTrue ==> Run(cs, fuel) == Contradiction
  {
    AsWrittenFromFacts(cs, 0, 1);
    NewClausesEmpty(cs);
    if AsWrittenResolution(cs) == ReturnsFalse {
      NoComplementsSaturate(cs, fuel);
    }
  }

  /**
   The program as written fails with `TypeError` on the satisfiable list
   `{p, q}`, `{¬p, r}`, where the model goes round again.
   */
  lemma AsWrittenRaisesTypeError()
    ensures AsWrittenResolution([{"p", "q"}, {"¬p", "r"}]) == RaisesTypeError
    ensures Continues([{"p", "q"}, {"¬p", "r"}])
  {
    var cs: seq<Clause> := [{"p", "q"}, {"¬p", "r"}];
    StuckExamplePairs();
    SatisfiableListNeverAnswers(1);
    assert !EmptyResolventAt(cs, 0, 1);
  }
}

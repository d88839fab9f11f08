/**
 Literals and clauses of the clause layer of KB_to_CNF.py.

 The program keeps literals as plain strings ("p", "¬q", " Q(y)") and a clause
 as a Python set of such strings. Negation is purely textual: a literal is the
 complement of another exactly when it is that other literal with the sign `¬`
 written in front of it.

 The valuation semantics below is not in the program: it is the reference
 against which the soundness of a resolution step is judged.
 */
module Literals {

  type Literal = string
  type Clause = set<Literal>

  /** The negation sign that `resolve` puts in front of a literal. */
  const NegationSign: char := '¬'

  /** The literal with one negation sign in front of it. */
  function Negated(l: Literal): (r: Literal)
    ensures |r| == |l| + 1 && r[0] == NegationSign && r[1..] == l
  {
    [NegationSign] + l
  }

  /** The test of KB_to_CNF.py:128: one literal is the other with `¬` in front. */
  predicate Complementary(a: Literal, b: Literal)
  {
    a == Negated(b) || Negated(a) == b
  }

  /** A literal is never its own complement, and complementarity is symmetric. */
  lemma ComplementaryFacts(a: Literal, b: Literal)
    ensures !Complementary(a, a)
    ensures Complementary(a, b) <==> Complementary(b, a)
    ensures Complementary(a, b) ==> |a| != |b|
  {
    assert |Negated(a)| != |a|;
  }

  // ---------------------------------------------------------------------------
  // Truth of literals and clauses under a valuation of the unsigned atoms.
  // ---------------------------------------------------------------------------

  /**
   The truth value of a literal when exactly the atoms in `trueAtoms` are true:
   every leading `¬` flips the value of the rest of the literal.
   */
  function Value(l: Literal, trueAtoms: set<string>): bool
    decreases |l|
  {
    if |l| > 0 && l[0] == NegationSign then !Value(l[1..], trueAtoms) else l in trueAtoms
  }

  /** A clause is the disjunction of its literals. */
  predicate SatisfiesClause(trueAtoms: set<string>, c: Clause)
  {
    exists l :: l in c && Value(l, trueAtoms)
  }

  /** A list of clauses is their conjunction. */
  predicate SatisfiesAll(trueAtoms: set<string>, cs: seq<Clause>)
  {
    forall k :: 0 <= k < |cs| ==> SatisfiesClause(trueAtoms, cs[k])
  }

  /** A list of clauses is satisfiable when some valuation makes every clause true. */
  ghost predicate Satisfiable(cs: seq<Clause>)
  {
    exists trueAtoms :: SatisfiesAll(trueAtoms, cs)
  }

  /** Complementary literals always take opposite truth values. */
  lemma ComplementaryOpposite(a: Literal, b: Literal, trueAtoms: set<string>)
    requires Complementary(a, b)
    ensures Value(a, trueAtoms) != Value(b, trueAtoms)
  {
    if a == Negated(b) {
      assert a[1..] == b;
    } else {
      assert b[1..] == a;
    }
  }

  /** The empty clause is false under every valuation. */
  lemma EmptyClauseUnsatisfiable(cs: seq<Clause>, k: nat)
    requires k < |cs| && cs[k] == {}
    ensures !Satisfiable(cs)
  {
    forall trueAtoms: set<string> ensures !SatisfiesAll(trueAtoms, cs) {
      assert !SatisfiesClause(trueAtoms, cs[k]);
    }
  }
}

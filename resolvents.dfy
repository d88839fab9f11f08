/**
 `resolve` (KB_to_CNF.py:124-131): propositional resolution of two clauses.

 For every literal `li` of the first clause and every literal `lj` of the second
 (in Python's set iteration order, which the program does not fix) such that one
 is the other with `¬` in front, the program appends the clause
 `(clause_i | clause_j) - {li, lj}` to a list. One entry is produced per such
 pair, so the list can hold the same clause twice.
 */
module Resolvents {
  import opened Literals

  /** The complementary pairs `(li, lj)` with `li` from `ci` and `lj` from `cj`. */
  function ComplementaryPairs(ci: Clause, cj: Clause): set<(Literal, Literal)>
  {
    set li, lj | li in ci && lj in cj && Complementary(li, lj) :: (li, lj)
  }

  /** The resolvent KB_to_CNF.py:129 builds: the union of both clauses without the pair. */
  function Resolvent(ci: Clause, cj: Clause, li: Literal, lj: Literal): Clause
  {
    (ci + cj) - {li, lj}
  }

  /** The resolvents the program collects for the two clauses, ignoring order and repeats. */
  function ResolventSet(ci: Clause, cj: Clause): set<Clause>
  {
    set p | p in ComplementaryPairs(ci, cj) :: Resolvent(ci, cj, p.0, p.1)
  }

  /** A sequence without repeated elements. */
  ghost predicate Distinct<T>(s: seq<T>)
  {
    forall k, m :: 0 <= k < m < |s| ==> s[k] != s[m]
  }

  /** A sequence without repeats has as many elements as its set of elements. */
  lemma {:induction false} DistinctCard<T>(s: seq<T>)
    requires Distinct(s)
    ensures |set x | x in s| == |s|
  {
    if |s| > 0 {
      var init := s[..|s| - 1];
      assert Distinct(init);
      DistinctCard(init);
      assert (set x | x in s) == (set x | x in init) + {s[|s| - 1]};
      assert s[|s| - 1] !in (set x | x in init);
    }
  }

  /**
   `resolve`. The ghost `pairs` records, entry by entry, which complementary pair
   produced each resolvent: every such pair exactly once, in the order the loops
   met them.
   */
  method Resolve(ci: Clause, cj: Clause) returns (resolvents: seq<Clause>, ghost pairs: seq<(Literal, Literal)>)
    ensures |resolvents| == |pairs| == |ComplementaryPairs(ci, cj)|
    ensures forall k :: 0 <= k < |pairs| ==>
              pairs[k] in ComplementaryPairs(ci, cj) && resolvents[k] == Resolvent(ci, cj, pairs[k].0, pairs[k].1)
    ensures Distinct(pairs)
    ensures forall p :: p in ComplementaryPairs(ci, cj) ==> p in pairs
    ensures resolvents == [] <==> ComplementaryPairs(ci, cj) == {}
    ensures forall c :: c in resolvents <==> c in ResolventSet(ci, cj)
    ensures forall k :: 0 <= k < |resolvents| ==>
              resolvents[k] <= ci + cj && pairs[k].0 !in resolvents[k] && pairs[k].1 !in resolvents[k]
  {
    resolvents, pairs := [], [];
    var restI := ci;
    while restI != {}
      invariant restI <= ci
      invariant |resolvents| == |pairs| && Distinct(pairs)
      invariant forall k :: 0 <= k < |pairs| ==>
                  pairs[k] in ComplementaryPairs(ci, cj) && pairs[k].0 !in restI &&
                  resolvents[k] == Resolvent(ci, cj, pairs[k].0, pairs[k].1)
      invariant forall li, lj :: li in ci - restI && lj in cj && Complementary(li, lj) ==> (li, lj) in pairs
      decreases restI
    {
      var li :| li in restI;
      var restJ := cj;
      ghost var before := |pairs|;
      while restJ != {}
        invariant restJ <= cj
        invariant before <= |resolvents| == |pairs| && Distinct(pairs)
        invariant forall k :: 0 <= k < before ==> pairs[k].0 !in restI
        invariant forall k :: before <= k < |pairs| ==> pairs[k].0 == li && pairs[k].1 !in restJ
        invariant forall k :: 0 <= k < |pairs| ==>
                    pairs[k] in ComplementaryPairs(ci, cj) &&
                    resolvents[k] == Resolvent(ci, cj, pairs[k].0, pairs[k].1)
        invariant forall li', lj :: li' in ci - restI && lj in cj && Complementary(li', lj) ==> (li', lj) in pairs
        invariant forall lj :: lj in cj - restJ && Complementary(li, lj) ==> (li, lj) in pairs
        decreases restJ
      {
        var lj :| lj in restJ;
        if li == Negated(lj) || Negated(li) == lj {
          var resolvent := (ci + cj) - {li, lj};
          resolvents := resolvents + [resolvent];
          pairs := pairs + [(li, lj)];
        }
        restJ := restJ - {lj};
      }
      restI := restI - {li};
    }
    assert (set p | p in pairs) == ComplementaryPairs(ci, cj);
    DistinctCard(pairs);
    forall c | c in ResolventSet(ci, cj) ensures c in resolvents {
      var p :| p in ComplementaryPairs(ci, cj) && c == Resolvent(ci, cj, p.0, p.1);
      var k :| 0 <= k < |pairs| && pairs[k] == p;
      assert resolvents[k] == c;
    }
  }

  /** Resolving `{p}` with `{¬p}`, in either order, gives the empty clause and nothing else. */
  method ResolveUnitClauses(p: Literal) returns (forward: seq<Clause>, backward: seq<Clause>)
    ensures forward == [{}] && backward == [{}]
  {
    var pos: Clause, neg: Clause := {p}, {Negated(p)};
    assert !Complementary(p, p) && !Complementary(Negated(p), Negated(p)) by {
      ComplementaryFacts(p, p);
      ComplementaryFacts(Negated(p), Negated(p));
    }
    assert ComplementaryPairs(pos, neg) == {(p, Negated(p))};
    assert ComplementaryPairs(neg, pos) == {(Negated(p), p)};
    ghost var pairs;
    forward, pairs := Resolve(pos, neg);
    assert pairs[0] == (p, Negated(p)) && forward[0] == {};
    backward, pairs := Resolve(neg, pos);
    assert pairs[0] == (Negated(p), p) && backward[0] == {};
  }

  /**
   A clause holding both `p` and `¬p` against a copy of itself yields two
   entries, one per complementary pair, and both are the empty clause: the
   list repeats a resolvent.
   */
  method ResolveRepeatsResolvent(p: Literal) returns (resolvents: seq<Clause>)
    ensures resolvents == [{}, {}]
  {
    var both: Clause := {p, Negated(p)};
    assert ComplementaryPairs(both, both) == {(p, Negated(p)), (Negated(p), p)} by {
      ComplementaryFacts(p, p);
      ComplementaryFacts(Negated(p), Negated(p));
      ComplementaryFacts(p, Negated(p));
    }
    assert |ComplementaryPairs(both, both)| == 2 by {
      assert (p, Negated(p)) != (Negated(p), p);
    }
    ghost var pairs;
    resolvents, pairs := Resolve(both, both);
    assert resolvents[0] == {} && resolvents[1] == {};
  }

  // ---------------------------------------------------------------------------
  // The textbook resolution rule, and where the program's rule departs from it.
  // ---------------------------------------------------------------------------

  /** Textbook resolution: remove `li` from `ci` and `lj` from `cj`, then take the union. */
  function StandardResolvent(ci: Clause, cj: Clause, li: Literal, lj: Literal): Clause
  {
    (ci - {li}) + (cj - {lj})
  }

  /** The textbook resolvent is true under every valuation that makes both parents true. */
  lemma StandardResolventSound(ci: Clause, cj: Clause, li: Literal, lj: Literal, trueAtoms: set<string>)
    requires li in ci && lj in cj && Complementary(li, lj)
    requires SatisfiesClause(trueAtoms, ci) && SatisfiesClause(trueAtoms, cj)
    ensures SatisfiesClause(trueAtoms, StandardResolvent(ci, cj, li, lj))
  {
    ComplementaryOpposite(li, lj, trueAtoms);
    var a :| a in ci && Value(a, trueAtoms);
    var b :| b in cj && Value(b, trueAtoms);
    if Value(li, trueAtoms) {
      assert b != lj && b in StandardResolvent(ci, cj, li, lj);
    } else {
      assert a != li && a in StandardResolvent(ci, cj, li, lj);
    }
  }

  /** The two rules agree unless a clause also holds the other clause's resolved literal. */
  lemma ResolventIsStandardWhen(ci: Clause, cj: Clause, li: Literal, lj: Literal)
    requires Complementary(li, lj)
    ensures Resolvent(ci, cj, li, lj) == StandardResolvent(ci, cj, li, lj) <==> li !in cj && lj !in ci
  {
    ComplementaryFacts(li, lj);
    if li in cj {
      assert li in StandardResolvent(ci, cj, li, lj) && li !in Resolvent(ci, cj, li, lj);
    } else if lj in ci {
      assert lj in StandardResolvent(ci, cj, li, lj) && lj !in Resolvent(ci, cj, li, lj);
    }
  }

  /**
   The program's rule is unsound: `{¬p, p}` and `{p}` are both true when `p`
   is, yet their resolvent on the pair `(¬p, p)` is the empty clause.
   */
  lemma TautologyYieldsEmptyResolvent()
    ensures ComplementaryPairs({"¬p", "p"}, {"p"}) == {("¬p", "p")}
    ensures Resolvent({"¬p", "p"}, {"p"}, "¬p", "p") == {}
    ensures SatisfiesClause({"p"}, {"¬p", "p"}) && SatisfiesClause({"p"}, {"p"})
    ensures StandardResolvent({"¬p", "p"}, {"p"}, "¬p", "p") == {"p"}
  {
    assert Negated("p") == "¬p";
    assert Value("p", {"p"});
    ComplementaryFacts("p", "p");
    ComplementaryFacts("¬p", "¬p");
    assert !Complementary("p", "p");
    assert Complementary("¬p", "p");
  }
}

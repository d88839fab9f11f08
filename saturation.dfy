/**
 The saturation loop of `resolution` (KB_to_CNF.py:108-122).

 Each round resolves every pair of positions `i < j` of the clause list, in the
 order `itertools.combinations` gives them. The round answers `True` as soon as
 one pair's resolvents contain the empty clause. Otherwise all resolvents are
 collected into `new_clauses`, and the loop answers `False` when every new
 clause is a subset of every clause of the list (line 119, as written). If
 neither happens, the list is extended by the new clauses and then every entry
 equal to a new clause is dropped (lines 121-122), and the next round starts.

 Line 118 adds the Python `set` objects of a round to a Python `set`, which
 raises `TypeError` (sets are unhashable). The loop below follows the evident
 intent, `new_clauses` as a set of clauses; `AsWrittenResolution` models what
 the line does instead.

 `while True` becomes a loop over a budget of rounds, and running out of it is
 the outcome `OutOfFuel`, never `Saturated`.
 */
module Saturation {
  import opened Literals
  import opened Resolvents

  datatype Outcome = Contradiction | Saturated | OutOfFuel

  // ---------------------------------------------------------------------------
  // One round, as functions of the clause list.
  // ---------------------------------------------------------------------------

  /** The pair at positions `i < j` has the empty clause among its resolvents (line 116). */
  predicate EmptyResolventAt(cs: seq<Clause>, i: nat, j: nat)
    requires i < j < |cs|
  {
    {} in ResolventSet(cs[i], cs[j])
  }

  /** Some pair of the list has the empty clause among its resolvents. */
  predicate FindsEmptyClause(cs: seq<Clause>)
  {
    exists i: nat, j: nat :: i < j < |cs| && EmptyResolventAt(cs, i, j)
  }

  /** Every resolvent of every pair `i < j` of the list: `new_clauses` after the pair loop. */
  function NewClauses(cs: seq<Clause>): set<Clause>
  {
    set i: nat, j: nat, c | i < j < |cs| && c in ResolventSet(cs[i], cs[j]) :: c
  }

  /** The resolvents of the pairs that `combinations` yields before the pair `(i, j)`. */
  function ResolventsBefore(cs: seq<Clause>, i: nat, j: nat): set<Clause>
  {
    set i': nat, j': nat, c | i' < j' < |cs| && (i' < i || (i' == i && j' < j)) &&
                              c in ResolventSet(cs[i'], cs[j']) :: c
  }

  /** The test of line 119: every new clause is a subset of every clause of the list. */
  predicate NewWithinAll(cs: seq<Clause>, newClauses: set<Clause>)
  {
    forall c, n :: c in cs && n in newClauses ==> n <= c
  }

  /** The list of line 122: the entries of `cs` that are not new clauses, in their order. */
  function Remaining(cs: seq<Clause>, newClauses: set<Clause>): (r: seq<Clause>)
    ensures |r| <= |cs|
  {
    if cs == [] then []
    else
      var init, last := cs[..|cs| - 1], cs[|cs| - 1];
      Remaining(init, newClauses) + (if last in newClauses then [] else [last])
  }

  /** The clause list the next round starts from. */
  function Next(cs: seq<Clause>): seq<Clause>
  {
    Remaining(cs, NewClauses(cs))
  }

  /** The round neither answers `True` nor `False`, so the loop goes round again. */
  predicate Continues(cs: seq<Clause>)
  {
    !FindsEmptyClause(cs) && !NewWithinAll(cs, NewClauses(cs))
  }

  /** The clause list after `rounds` rounds that went round again. */
  function Iterate(cs: seq<Clause>, rounds: nat): seq<Clause>
    decreases rounds
  {
    if rounds == 0 then cs else Iterate(Next(cs), rounds - 1)
  }

  /** The answer of the loop when it may run at most `fuel` rounds. */
  function Run(cs: seq<Clause>, fuel: nat): Outcome
    decreases fuel
  {
    if fuel == 0 then OutOfFuel
    else if FindsEmptyClause(cs) then Contradiction
    else if NewWithinAll(cs, NewClauses(cs)) then Saturated
    else Run(Next(cs), fuel - 1)
  }

  // ---------------------------------------------------------------------------
  // The loop itself.
  // ---------------------------------------------------------------------------

  /** Adding the resolvents of pair `(i, j)` moves on to the next pair of the row. */
  lemma ResolventsBeforeStep(cs: seq<Clause>, i: nat, j: nat)
    requires i < j < |cs|
    ensures ResolventsBefore(cs, i, j + 1) == ResolventsBefore(cs, i, j) + ResolventSet(cs[i], cs[j])
  {
    forall c | c in ResolventSet(cs[i], cs[j]) ensures c in ResolventsBefore(cs, i, j + 1) {
      assert i < j < |cs| && (i < i || (i == i && j < j + 1)) && c in ResolventSet(cs[i], cs[j]);
    }
  }

  /** After the last pair of row `i`, the collection is that of the start of row `i + 1`. */
  lemma ResolventsBeforeRow(cs: seq<Clause>, i: nat)
    requires i < |cs|
    ensures ResolventsBefore(cs, i, |cs|) == ResolventsBefore(cs, i + 1, i + 2)
  {
  }

  /** After the last row, the collection is every pair's resolvents. */
  lemma ResolventsBeforeAll(cs: seq<Clause>)
    ensures ResolventsBefore(cs, |cs|, |cs| + 1) == NewClauses(cs)
  {
  }

  /**
   Lines 115-116 for one pair: `resolve` the two clauses, test for the empty
   clause, and the resolvents as the set that line 118 adds them to.
   */
  method ResolvePair(ci: Clause, cj: Clause) returns (empty: bool, resolvents: set<Clause>)
    ensures empty <==> {} in ResolventSet(ci, cj)
    ensures resolvents == ResolventSet(ci, cj)
  {
    var list;
    ghost var pairs;
    list, pairs := Resolve(ci, cj);
    empty := {} in list;
    resolvents := set c | c in list;
  }

  /** Row `i` stays free of empty resolvents up to and including a pair `(i, j)` that has none. */
  lemma RowClearStep(cs: seq<Clause>, i: nat, j: nat)
    requires i < j < |cs| && !EmptyResolventAt(cs, i, j)
    requires forall j': nat :: i < j' < j ==> !EmptyResolventAt(cs, i, j')
    ensures forall j': nat :: i < j' < j + 1 ==> !EmptyResolventAt(cs, i, j')
  {
  }

  /**
   The pairs `(i, j)` of row `i` of the pair loop, for `j` from `i + 1` on:
   `found` is the early `return True` of line 117; otherwise the resolvents of
   the row are added to `newClauses`.
   */
  method ResolveRow(cs: seq<Clause>, i: nat, newClauses: set<Clause>) returns (found: bool, newClauses': set<Clause>)
    requires i < |cs| && newClauses == ResolventsBefore(cs, i, i + 1)
    ensures found <==> exists j: nat :: i < j < |cs| && EmptyResolventAt(cs, i, j)
    ensures !found ==> newClauses' == ResolventsBefore(cs, i + 1, i + 2)
  {
    newClauses' := newClauses;
    for j := i + 1 to |cs|
      invariant forall j': nat :: i < j' < j ==> !EmptyResolventAt(cs, i, j')
      invariant newClauses' == ResolventsBefore(cs, i, j)
    {
      var empty, resolvents := ResolvePair(cs[i], cs[j]);
      if empty {
        assert EmptyResolventAt(cs, i, j);
        return true, newClauses';
      }
      RowClearStep(cs, i, j);
      ResolventsBeforeStep(cs, i, j);
      newClauses' := newClauses' + resolvents;
    }
    ResolventsBeforeRow(cs, i);
    found := false;
  }

  /**
   The pair loop of lines 111-118, in the order of `combinations(range(n), 2)`:
   `found` is the early `return True` of line 117; otherwise `newClauses` holds
   every resolvent of every pair.
   */
  method ResolvePairs(cs: seq<Clause>) returns (found: bool, newClauses: set<Clause>)
    ensures found <==> FindsEmptyClause(cs)
    ensures !found ==> newClauses == NewClauses(cs)
  {
    newClauses := {};
    for i := 0 to |cs|
      invariant forall i': nat, j': nat :: i' < i && i' < j' < |cs| ==> !EmptyResolventAt(cs, i', j')
      invariant newClauses == ResolventsBefore(cs, i, i + 1)
    {
      found, newClauses := ResolveRow(cs, i, newClauses);
      if found {
        return;
      }
    }
    ResolventsBeforeAll(cs);
    found := false;
  }

  /** Lines 121-122: extend the list by the new clauses, then keep only entries that are not new. */
  method Rebuild(cs: seq<Clause>, newClauses: set<Clause>) returns (next: seq<Clause>)
    ensures next == Remaining(cs, newClauses)
  {
    // Line 121: `clauses.extend(new_clauses)`, in an arbitrary order of the set.
    var extended := cs;
    var rest := newClauses;
    ghost var added: seq<Clause> := [];
    while rest != {}
      invariant rest <= newClauses
      invariant extended == cs + added
      invariant forall c :: c in added <==> c in newClauses - rest
      decreases rest
    {
      var c :| c in rest;
      extended := extended + [c];
      added := added + [c];
      rest := rest - {c};
    }
    assert forall c :: c in added <==> c in newClauses;
    // Line 122: keep the entries that are not new clauses.
    next := [];
    for k := 0 to |extended|
      invariant next == Remaining(extended[..k], newClauses)
    {
      assert extended[..k + 1][..k] == extended[..k];
      if extended[k] !in newClauses {
        next := next + [extended[k]];
      }
    }
    assert extended[..|extended|] == extended;
    RemainingAllNew(cs, added, newClauses);
  }

  /** Entries that are all new clauses leave nothing behind when appended. */
  lemma {:induction false} RemainingAllNew(cs: seq<Clause>, added: seq<Clause>, newClauses: set<Clause>)
    requires forall k :: 0 <= k < |added| ==> added[k] in newClauses
    ensures Remaining(cs + added, newClauses) == Remaining(cs, newClauses)
    decreases |added|
  {
    if added != [] {
      var init := added[..|added| - 1];
      assert (cs + added)[..|cs + added| - 1] == cs + init;
      RemainingAllNew(cs, init, newClauses);
    } else {
      assert cs + added == cs;
    }
  }

  /** One round of `Run`, spelled out for a positive budget. */
  lemma RunRound(cs: seq<Clause>, fuel: nat)
    requires fuel > 0
    ensures FindsEmptyClause(cs) ==> Run(cs, fuel) == Contradiction
    ensures !FindsEmptyClause(cs) && NewWithinAll(cs, NewClauses(cs)) ==> Run(cs, fuel) == Saturated
    ensures Continues(cs) ==> Run(cs, fuel) == Run(Next(cs), fuel - 1)
  {
  }

  /**
   The loop of lines 109-122 with at most `fuel` rounds. Its answer is `Run`:
   `Contradiction` for `return True`, `Saturated` for `return False`.
   */
  method Resolution(clauses: seq<Clause>, fuel: nat) returns (outcome: Outcome)
    ensures outcome == Run(clauses, fuel)
  {
    var cs := clauses;
    var budget := fuel;
    while budget > 0
      invariant Run(cs, budget) == Run(clauses, fuel)
      decreases budget
    {
      var found, newClauses := ResolvePairs(cs);
      if found {
        RunRound(cs, budget);
        return Contradiction;
      }
      if NewWithinAll(cs, newClauses) {
        RunRound(cs, budget);
        return Saturated;
      }
      assert newClauses == NewClauses(cs);
      assert Continues(cs);
      RunRound(cs, budget);
      assert Run(cs, budget) == Run(Next(cs), budget - 1);
      ghost var previous := cs;
      cs := Rebuild(cs, newClauses);
      assert cs == Next(previous);
      budget := budget - 1;
      assert Run(cs, budget) == Run(previous, budget + 1);
    }
    return OutOfFuel;
  }

  // ---------------------------------------------------------------------------
  // Lines 109-120 as written, with the `TypeError` of line 118.
  // ---------------------------------------------------------------------------

  /** What the first round of the program as written does. */
  datatype PythonResult = ReturnsTrue | ReturnsFalse | RaisesTypeError

  /**
   The program's first round from the pair `(i, j)` on. A pair without
   resolvents leaves `new_clauses` empty; at the first pair with resolvents the
   program either returns `True` (line 117) or fails at line 118. If no pair has
   resolvents, `new_clauses` is empty, the test of line 119 holds vacuously and
   the program returns `False`.
   */
  function AsWrittenFrom(cs: seq<Clause>, i: nat, j: nat): PythonResult
    requires i < j
    decreases |cs| - i, |cs| - j
  {
    if i >= |cs| then ReturnsFalse
    else if j >= |cs| then AsWrittenFrom(cs, i + 1, i + 2)
    else if ComplementaryPairs(cs[i], cs[j]) == {} then AsWrittenFrom(cs, i, j + 1)
    else if EmptyResolventAt(cs, i, j) then ReturnsTrue
    else RaisesTypeError
  }

  /** The saturation loop of `resolution` as the program is written. */
  function AsWrittenResolution(cs: seq<Clause>): PythonResult
  {
    AsWrittenFrom(cs, 0, 1)
  }
}

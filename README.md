# The clause layer of KB_to_CNF

KB_to_CNF.py turns first-order propositions into conjunctive normal form. It
then asks, by resolution, whether the knowledge base contradicts itself. This
project models the part that comes after normalisation: reading a CNF string as
clauses, resolving two clauses, and the saturation loop of `resolution`.

- `literals.dfy` (module `Literals`). A literal is a string and a clause is a set
  of strings. Two literals are complementary when one is the other with `¬`
  written in front. The module also gives literals a truth value under a
  valuation of the unsigned atoms. The program has no such semantics; it is the
  reference for judging whether a resolution step is sound.
- `cnf_clauses.dfy` (module `CnfClauses`). `clauses_from_formula` models
  Python's `str.split` with an explicit one-character separator, `str.join`, and
  the two splits on `∧` and `∨`.
- `resolvents.dfy` (module `Resolvents`). `resolve` becomes a method with the
  program's two nested loops over the two clauses. Python's set iteration order
  is not fixed, so each loop picks its next literal nondeterministically. A ghost
  trace records which complementary pair produced each resolvent. The module
  also holds the textbook resolution rule, for comparison.
- `saturation.dfy` (module `Saturation`). The saturation loop becomes a method
  with a bounded budget of rounds. The pair loop `combinations(range(n), 2)`
  becomes nested index loops over `i < j`. The list rebuilding of lines 121-122
  is a method of its own. Each method is proved against a function: `Run` gives
  the loop's answer and `Next` the list the next round starts from.
- `saturation_properties.dfy` (module `SaturationProperties`). Lemmas about
  `Run`: what an answer means round by round, how the budget matters, the edge
  cases of line 119, and lists on which the loop never answers. It also compares
  the model with the program as written.

The loop's answers are `Contradiction` for `return True` (an empty resolvent;
for the program, not satisfiable) and `Saturated` for `return False`. Budget
exhaustion is a third outcome, `OutOfFuel`, and is never reported as `False`.
The driver at line 171 prints the loop's answer after the words "Is the
knowledge base satisfiable?". `True` there means a contradiction was found.

Lines 121-122 first append the new clauses and then drop every entry equal to a
new clause, the appended ones included. So the list never gains a clause, and it
loses the old entries that equal a new clause. `Saturation.Remaining` models
exactly this. `SaturationProperties.StuckListNeverAnswers` shows the
consequence: a round that drops nothing and does not answer repeats forever.

The resolvent of line 129 is `(ci ∪ cj) − {li, lj}`. It differs from textbook
resolution, `(ci − {li}) ∪ (cj − {lj})`, when one clause also holds the other
clause's resolved literal (`Resolvents.ResolventIsStandardWhen`). The textbook
rule is sound (`Resolvents.StandardResolventSound`). The program's rule is not:
`{¬p, p}` and `{p}` are both true when `p` is, yet their resolvent is `{}`, so
the loop answers `True` on this satisfiable list
(`SaturationProperties.TautologyRefutedAsWritten`). The model keeps the
program's rule throughout. Its answers are therefore those of the program with
line 118 corrected (`new_clauses` as a set of clauses). On a list where no
clause holds a literal together with its complement, the two rules agree on
every clause the loop ever sees, and a `Contradiction` answer is sound
(`SaturationProperties.RunSound`). The loop is not refutation-complete, because
the list never gains a clause: `{p}`, `{¬p, q}`, `{¬q}` is unsatisfiable, yet
the loop never answers on it (`SaturationProperties.UnsatisfiableListNeverAnswers`).

## Model

| member | source | states |
|---|---|---|
| Literals.Complementary | KB_to_CNF.py:128 | the test of line 128: one literal is the other with `¬` written in front; its properties are stated by `ComplementaryFacts` and `ComplementaryOpposite` |
| Literals.ComplementaryFacts | KB_to_CNF.py:128 | no literal is complementary to itself; the test is symmetric; complementary literals differ in length |
| Literals.ComplementaryOpposite | KB_to_CNF.py:128 | complementary literals take opposite truth values under every valuation |
| Literals.EmptyClauseUnsatisfiable | KB_to_CNF.py:116-117 | a list holding the empty clause is satisfied by no valuation, which is why the empty clause ends the search |
| CnfClauses.Split | KB_to_CNF.py:135 | `split` with an explicit separator yields one more piece than the separator occurs in the string |
| CnfClauses.SplitPieces | KB_to_CNF.py:135-136 | no piece holds the separator, and every character of a piece occurs in the string |
| CnfClauses.JoinSplit | KB_to_CNF.py:135 | joining the pieces with the separator gives back the string exactly, since nothing is stripped |
| CnfClauses.SplitJoin | KB_to_CNF.py:135-136 | on non-empty lists of separator-free pieces, splitting undoes joining, so the split is the only such decomposition |
| CnfClauses.SplitAfterWord | KB_to_CNF.py:135 | a separator-free word in front of a string only lengthens the first piece; the other pieces stay the same |
| CnfClauses.ClausesFromFormula | KB_to_CNF.py:133-137 | there is one clause per conjunct (the number of `∧` plus one), and every clause is non-empty, `{""}` included |
| CnfClauses.LiteralsFreeOfConnectives | KB_to_CNF.py:135-136 | no literal of any clause contains `∧` or `∨` |
| CnfClauses.LiteralsComeFromFormula | KB_to_CNF.py:136 | every character of every literal occurs in the formula |
| CnfClauses.ConjunctsJoin | KB_to_CNF.py:135 | the conjuncts joined again with `∧` give back the formula, spaces included |
| CnfClauses.ReadBackCnf | KB_to_CNF.py:133-137 | reading back a CNF text written from connective-free literals gives one clause per conjunct, each holding exactly that conjunct's literals |
| Resolvents.Resolve | KB_to_CNF.py:124-131 | entry k is `(ci ∪ cj) − {li, lj}` for the k-th complementary pair met; every complementary pair is met exactly once, so there is one entry per pair; the list is empty iff no pair is complementary; its elements are exactly the resolvent set; each entry lies within `ci ∪ cj` and holds neither literal of its pair |
| Resolvents.Resolvent | KB_to_CNF.py:129 | the resolvent the program builds for one pair, `(ci ∪ cj) − {li, lj}`; compared with the textbook rule by `ResolventIsStandardWhen` |
| Resolvents.ResolveUnitClauses | KB_to_CNF.py:126-130 | `{p}` against `{¬p}`, in either order, yields exactly `[{}]` |
| Resolvents.ResolveRepeatsResolvent | KB_to_CNF.py:126-130 | `{p, ¬p}` against itself yields `[{}, {}]`: one entry per pair, so the list repeats a clause |
| Resolvents.StandardResolventSound | KB_to_CNF.py:129 | the textbook resolvent `(ci − {li}) ∪ (cj − {lj})` is true under every valuation that makes both parents true |
| Resolvents.ResolventIsStandardWhen | KB_to_CNF.py:129 | the program's resolvent equals the textbook one iff neither clause holds the other clause's resolved literal |
| Resolvents.TautologyYieldsEmptyResolvent | KB_to_CNF.py:129 | `{¬p, p}` and `{p}` are both true when `p` is, yet the program's resolvent on `(¬p, p)` is `{}`; the textbook resolvent is `{p}` |
| Saturation.ResolvePair | KB_to_CNF.py:115-116 | for one pair: the empty-clause test is true iff `{}` is a resolvent, and the resolvents come back as the resolvent set |
| Saturation.NewWithinAll | KB_to_CNF.py:119 | the test of line 119 as written: every new clause is a subset of every clause of the list, vacuously true when there are no new clauses |
| Saturation.Remaining | KB_to_CNF.py:121-122 | the list after lines 121-122: the old entries in order, without those equal to a new clause, never longer than the old list; membership is stated by `RemainingMembers` |
| Saturation.Run | KB_to_CNF.py:109-122 | the loop's answer under a budget of rounds: `Contradiction` when a pair has the empty resolvent, `Saturated` when the test of line 119 holds, otherwise the next round on `Remaining`, and `OutOfFuel` when the budget is spent; its meaning is stated by `RunAnswers` and `RunOutOfFuel` |
| Saturation.AsWrittenFrom | KB_to_CNF.py:112-120 | the first round as written, from pair `(i, j)` on: pairs without resolvents are skipped, the first pair with resolvents returns `True` if `{}` is among them and otherwise raises `TypeError` at line 118, and `False` when no pair has resolvents |
| Saturation.AsWrittenResolution | KB_to_CNF.py:109-120 | the program as written, which never gets past its first round: `AsWrittenFrom` from the first pair |
| Saturation.ResolveRow | KB_to_CNF.py:112-118 | over the pairs `(i, j)` of one row: stops iff some `j` of the row gives the empty clause; otherwise the collected clauses are those of every pair up to the end of the row |
| Saturation.ResolvePairs | KB_to_CNF.py:110-118 | the pair loop returns `True` iff some pair `i < j` of the current list has the empty clause among its resolvents; otherwise `new_clauses` is every resolvent of every pair |
| Saturation.Rebuild | KB_to_CNF.py:121-122 | extending by the new clauses and then filtering gives `Remaining`: the old list in order, without the entries equal to a new clause |
| Saturation.Resolution | KB_to_CNF.py:108-122 | the loop with a budget of rounds answers exactly `Run` |
| SaturationProperties.RunAnswers | KB_to_CNF.py:109-120 | `Run` answers `Contradiction` (or `Saturated`) iff, within the budget, some round gives that answer and every earlier round went round again |
| SaturationProperties.RunOutOfFuel | KB_to_CNF.py:109 | `Run` runs out of budget iff every round within it goes round again |
| SaturationProperties.MoreFuelSameAnswer | KB_to_CNF.py:109-122 | an answer found within a budget stays the answer under every larger budget |
| SaturationProperties.NoComplementsSaturate | KB_to_CNF.py:119-120 | with no complementary pair anywhere, `new_clauses` is empty and the loop answers `Saturated`: the subset test holds vacuously |
| SaturationProperties.RemainingMembers | KB_to_CNF.py:122 | a clause is in the rebuilt list iff it is in the old list and is not a new clause |
| SaturationProperties.RemainingUntouched | KB_to_CNF.py:121-122 | when no entry equals a new clause, the rebuilt list is the old list |
| SaturationProperties.StuckListNeverAnswers | KB_to_CNF.py:119-122 | a round that goes round again and drops nothing leaves the list unchanged, and the loop never answers at any budget |
| SaturationProperties.IterateWithin | KB_to_CNF.py:121-122 | every clause of every list the loop reaches is a clause of the starting list |
| SaturationProperties.RunSound | KB_to_CNF.py:109-129 | on a list where no clause holds a literal and its complement, the answer `Contradiction` means the list is unsatisfiable |
| SaturationProperties.UnitClausesContradict | KB_to_CNF.py:116-117 | `[{p}, {¬p}]` answers `Contradiction` in the first round |
| SaturationProperties.DistinctAtomsSaturate | KB_to_CNF.py:119-120 | `[{P(a)}, {Q(a)}]` answers `Saturated` |
| SaturationProperties.StuckExamplePairs | KB_to_CNF.py:126-130 | `{p, q}` and `{¬p, r}` have the single complementary pair `(p, ¬p)` and the single resolvent `{q, r}` |
| SaturationProperties.SatisfiableListNeverAnswers | KB_to_CNF.py:109-122 | the satisfiable list `[{p, q}, {¬p, r}]` runs out of every budget: neither test ever holds and the list never changes |
| SaturationProperties.UnsatisfiableListNeverAnswers | KB_to_CNF.py:109-122 | the unsatisfiable list `[{p}, {¬p, q}, {¬q}]` runs out of every budget: its resolvents `{q}` and `{¬p}` are never added, so the loop is not refutation-complete |
| SaturationProperties.TautologyRefutedAsWritten | KB_to_CNF.py:116-117 | with the resolvent of line 129, the satisfiable list `[{¬p, p}, {p}]` answers `Contradiction` |
| SaturationProperties.StandardEmptyResolventRefutes | KB_to_CNF.py:129 | with the textbook rule, an empty resolvent of two clauses of a list shows the list unsatisfiable |
| SaturationProperties.AsWrittenFromFacts | KB_to_CNF.py:112-120 | the first round as written returns `True` only if some pair has an empty resolvent, and returns `False` iff no pair from the starting pair on is complementary |
| SaturationProperties.NewClausesEmpty | KB_to_CNF.py:118-119 | `new_clauses` ends up empty iff no pair of the list is complementary |
| SaturationProperties.AsWrittenAgreesUnlessTypeError | KB_to_CNF.py:112-120 | where the program as written does not fail, it agrees with the model: `False` iff no resolvents (then `Saturated`), and `True` only with `Contradiction` |
| SaturationProperties.AsWrittenRaisesTypeError | KB_to_CNF.py:118 | on `[{p, q}, {¬p, r}]` the program as written raises `TypeError` where the model goes round again |

## Left out

- The normalisation functions (KB_to_CNF.py:4-93) and their calls (lines 98-106) are left out. They are defined by Python regular-expression semantics, and the loop is modelled on a clause list given directly.
- `print_propositions_in_cnf` and the example driver (lines 139-171) are console output over fixed demo data.
- `itertools.combinations` is a library call. It is replaced by nested index loops over `0 <= i < j < n`, in the order that `combinations` yields the pairs.
- `while True` becomes a budget of rounds, because the loop can run forever. `OutOfFuel` is the model's own outcome and the program has no counterpart.
- Python's set iteration order is not modelled. `Resolve` picks literals nondeterministically, so its contract holds for every order. The order of `new_clauses` in `clauses.extend` is irrelevant, because line 122 filters those entries out again. `Saturation.Rebuild` still appends them in an arbitrary order before filtering.
- Unification, substitution, subsumption and a formula syntax tree are left out. The code has none of them: literals are compared as plain strings.

## Findings

| source | as written | input that shows it | evidently intended | confidence | as-written member | corrected member |
|---|---|---|---|---|---|---|
| KB_to_CNF.py:118 | `new_clauses.update(resolvents)` adds Python `set` objects to a `set`; sets are unhashable, so the first pair whose resolvents are non-empty and lack `{}` raises `TypeError` | `[{p, q}, {¬p, r}]`: the pair has the resolvent `{q, r}`, which is not empty | `new_clauses` holds the resolvents as clauses (for example as frozensets) | high, not executed | SaturationProperties.AsWrittenRaisesTypeError | Saturation.ResolvePairs |
| KB_to_CNF.py:129 | the resolvent is `(ci ∪ cj) − {li, lj}`, which also removes `li` when it occurs in `cj` (or `lj` in `ci`) | `{¬p, p}` and `{p}`: both are true when `p` is, yet the resolvent is `{}`, and the loop answers `True` on this satisfiable list | textbook resolution `(ci − {li}) ∪ (cj − {lj})`, which is sound | medium, not executed | SaturationProperties.TautologyRefutedAsWritten | SaturationProperties.StandardEmptyResolventRefutes |

The corrected rule of the second row is `Resolvents.StandardResolvent`, proved sound by `Resolvents.StandardResolventSound`, and `SaturationProperties.StandardEmptyResolventRefutes` shows that an empty textbook resolvent is a refutation. The loop itself keeps the program's rule, so that its answers stay those of the program; `SaturationProperties.RunSound` shows where the two rules cannot differ.

# Verified models of the CaDiCaL fork and its Python solvers

This project models, in Dafny, the parts of the repository that decide whether an answer of a solver can be
trusted, and proves them correct for every input and every run. It needs nothing but Dafny 4.11:
`dafny verify dfyconfig.toml`.

The theory that all parts share is in `Logic`: literals are nonzero integers, clauses are sequences, models are
sets of true variables. Clause databases map references to literal sequences, since the programs reorder literals
in place. Classes follow the objects of the programs; their methods are proved against predicates and functions on
values, about which the lemmas speak.

* The Python CDCL solver: `CdclSolver` with `ImplicationGraph`, `SearchState`, `SearchSteps`, `TrailOrder`, `SearchRuns`
  and `SearchRank`; its answers are judged on every formula, and `SearchLevels` and `StallLoop` show that, without empty
  clauses, it ends exactly if no turn stalls, which no turn does if no clause repeats a literal. `CdclLoop` follows an
  input on which it never ends. CaDiCaL's first-UIP analysis (`Analyze`, `DrivingClause`) refines the same reference.
* The DLIS variant: `Dlis` with `ClauseOrder` and `DlisChoice`. It shares the members that the two Python files have in
  common, line for line, and `DlisLoop` follows an input on which it never ends.
* Model reconstruction: `Extension` (the flat stack) and `Reconstruction` (one theorem for all simplifiers), used by
  blocked clauses (`Block`), covered clauses (`Cover`, `CoverWatches`, `CoverSchedule`), variable elimination (`Elim`,
  `UnitClosure`, `Elimination`, `Eliminate`, `ResolventCount`, `VariableElimination`) with gates (`GateLogic`, `Gates`,
  `AndGates`, `IteGates`, `XorGates`) and one gate that is none (`SatisfiedGate`), globally blocked clauses (`Autarky`,
  `Candidates`, `Condition`) and equivalent literals (`Digraph`, `Tarjan`, `Components`, `Substitution`, `ClauseFates`,
  `Decompose`).

  The rounds say what they do and not only that it is sound: which variables, clauses or candidates they try and in
  which order, when a try succeeds, and what the result and the flags kept between rounds are.
* Craig interpolation: `Aig`, `Craig`, `CraigCnf` and `CraigTracer`.
* The forward checker for DRUP proofs: `Propagation`, `ClauseTable`, `Simplify`, `LiveClauses` and `Checker`.
* Supporting structures: flipping model literals (`Flip`), the decision queue with the DLIS scan (`DecisionQueue`),
  out-of-order backtracking (`TrailCompaction`, `Backtrack`), the score heap (`HeapOrder`, `Heap`), constraint
  rotation (`Decide`), and the benchmark encoders (`Benchmarks`, `Coloring`).

## Model

| member | source | states |
|---|---|---|
| `CdclSolver.SATSolver.CheckClause` | document/Graphics/dpll_cdcl_sat_solver.py:34-58 | satisfied exactly if a literal is true, conflict exactly if all are false, unit only with one unassigned position and all others false, and otherwise two positions are unassigned |
| `CdclSolver.SATSolver.PropagateOnce` | document/Graphics/dpll_cdcl_sat_solver.py:70-84 | one pass: conflict or units in list order, as the function `Pass` computes it; without conflict and change every clause is settled |
| `SearchSteps.PassVisits` | document/Graphics/dpll_cdcl_sat_solver.py:70-84 | such a pass visits the clauses one after the other in list order and ends at the first falsified one |
| `CdclSolver.SATSolver.UnitPropagate` | document/Graphics/dpll_cdcl_sat_solver.py:60-85 | propagation terminates; it returns a falsified clause, or none and then no clause is unit or falsified; every assignment made is justified by a clause, on the current level |
| `CdclSolver.SATSolver.PickBranchingVariable` | document/Graphics/dpll_cdcl_sat_solver.py:87-100 | the first unassigned variable of the formula in the order in which their set is visited, or none only if all are assigned |
| `CdclSolver.Resolve` | document/Graphics/dpll_cdcl_sat_solver.py:102-120 | the literals of both clauses without the pivot and its negation, each once: of two of them the one whose first position in the first clause, then in the second, is smaller comes first |
| `SearchSteps.ResolventLits` | document/Graphics/dpll_cdcl_sat_solver.py:102-120 | that list is the set resolvent and has no repetition |
| `SearchSteps.ResolventOrder` | document/Graphics/dpll_cdcl_sat_solver.py:102-120 | for all clauses: the literals kept stand in the order of their first positions, those of the first clause before those only in the second |
| `CdclSolver.SATSolver.LatestLiteral` | document/Graphics/dpll_cdcl_sat_solver.py:138-153 | the one of the given literals that comes last on the decision stack among those of the current level, and its place |
| `CdclSolver.SATSolver.BackjumpLevel` | document/Graphics/dpll_cdcl_sat_solver.py:162-169 | the highest level of a literal below the current level, or 0 if there is none |
| `CdclSolver.SATSolver.ConflictAnalysis` | document/Graphics/dpll_cdcl_sat_solver.py:122-169 | terminates for every falsified clause with the clause that `Learned` defines and the level to return to; without repeated literals it is exactly the reference first-UIP clause |
| `ImplicationGraph.FirstUipShape` | document/Graphics/dpll_cdcl_sat_solver.py:129-160 | the first-UIP clause is entirely false and has exactly one literal on the conflict level |
| `ImplicationGraph.FirstUipEntailed` | document/Graphics/dpll_cdcl_sat_solver.py:129-160 | every model of the formula satisfies the first-UIP clause |
| `TrailOrder.LearnedSound` | document/Graphics/dpll_cdcl_sat_solver.py:129-160 | the learned clause is implied and entirely false, on every formula and even when the conflict clause repeats its literals |
| `TrailOrder.LearnedReaches` | document/Graphics/dpll_cdcl_sat_solver.py:129-160 | it reaches the conflict level if conflict and reasons do |
| `TrailOrder.LearnedStops` | document/Graphics/dpll_cdcl_sat_solver.py:155-158 | the break at a literal without reason is taken exactly if several positions of the conflict clause are on its level and all hold the negated decision; the clause learned is then the conflict clause |
| `TrailOrder.LearnedIsFirstUip` | document/Graphics/dpll_cdcl_sat_solver.py:129-160 | without repeated literals the analysis is the reference first-UIP analysis |
| `SearchState.ReasonsReachLevel` | document/Graphics/dpll_cdcl_sat_solver.py:72-84 | every reason has a second literal on the level on which it propagated, since propagation had finished on all lower levels |
| `CdclSolver.SATSolver.Backjump` | document/Graphics/dpll_cdcl_sat_solver.py:171-186 | exactly the assignments above the level disappear, from stack and maps alike |
| `SearchState.Asserting` | document/Graphics/dpll_cdcl_sat_solver.py:202-207 | a learned clause with one position on the conflict level has one unassigned position after the backjump and all others are false |
| `SearchState.JumpQuiet` | document/Graphics/dpll_cdcl_sat_solver.py:162-169 | on no level below the backjump level would the learned clause have propagated |
| `SearchState.AfterJump` | document/Graphics/dpll_cdcl_sat_solver.py:202-207 | the search invariant holds again on the level returned to, on every formula; without empty clauses, if the learned clause has one position on the conflict level, it and it alone has something to propagate there |
| `SearchState.RootConflict` | document/Graphics/dpll_cdcl_sat_solver.py:198-201 | a conflict on level 0 refutes the formula |
| `CdclSolver.SATSolver.Learn` | document/Graphics/dpll_cdcl_sat_solver.py:202-207 | learning keeps the formula equivalent and the invariant and returns to a lower level; with one position of the learned clause on the conflict level something is pending there |
| `CdclSolver.SATSolver.Decide` | document/Graphics/dpll_cdcl_sat_solver.py:220-225 | a decision keeps the invariant, opens a level and raises the rank |
| `SearchRank.RankGrows` | document/Graphics/dpll_cdcl_sat_solver.py:188-225 | a lexicographically larger vector of assignment counts per level has a larger rank |
| `SearchRank.RankAfterPropagation` | document/Graphics/dpll_cdcl_sat_solver.py:196-197 | propagation never lowers the rank, and the assignment it owes after a backjump makes up for the credit |
| `SearchRank.RankAfterJump` | document/Graphics/dpll_cdcl_sat_solver.py:202-207 | cutting the levels above the target and crediting one assignment there raises the rank |
| `CdclSolver.SATSolver.Solve` | document/Graphics/dpll_cdcl_sat_solver.py:188-225 | for every formula: a refusal is right, an assignment returned is over exactly the variables of the formula and is a model if and only if no clause is empty, every turn is a turn of the relation, and the loop answers within n stalled turns exactly if no run has more than n; without empty clauses and repeated literals it always answers |
| `CdclSolver.Answers` | document/Graphics/dpll_cdcl_sat_solver.py:188-225 | for every formula and every bound: some run answers with at most that many stalled turns if and only if no run has more; without empty clauses it answers if and only if no turn ever stalls; total correctness without repeated literals |
| `StallLoop.OneStallIsForever` | document/Graphics/dpll_cdcl_sat_solver.py:188-225 | without empty clauses one stall is the first of any number: whatever the bound, it holds of all runs exactly if no run stalls at all |
| `StallLoop.StallHappens` | document/Graphics/dpll_cdcl_sat_solver.py:155-158 | a stall leaves a state in which the decision of the conflict level made the conflict clause false, that clause was learned as it is, and everything below is quiet |
| `StallLoop.DecidesAgain` | document/Graphics/dpll_cdcl_sat_solver.py:220-225 | from there every level propagates to the same values and the same variable is decided next |
| `StallLoop.LearnsAgain` | document/Graphics/dpll_cdcl_sat_solver.py:202-207 | down at the same level the conflict is the same, and the same clause is learned with the same jump, which stalls again |
| `SearchLevels.PropagateAgain` | document/Graphics/dpll_cdcl_sat_solver.py:60-85 | propagation is confluent below a quiet level: it reaches exactly its values from its decision, whatever copies were learned and in whatever order clauses are visited |
| `CdclLoop.RepeatNeverAnswers` | document/Graphics/dpll_cdcl_sat_solver.py:51-58 | no run from [[-1,-1]] ever answers: every state it reaches is a search state of the loop |
| `CdclLoop.RepeatIsUnbounded` | document/Graphics/dpll_cdcl_sat_solver.py:155-158 | on that input the condition fails for every bound: every other turn stalls |
| `CdclLoop.TwiceIsSatisfiable` | document/Graphics/dpll_cdcl_sat_solver.py:188-225 | that input has a model and no empty clause |
| `Analyze.Analyzer.AnalyzeLiteral` | implementations/cadical/src/analyze.cpp:254-317 | seeing a literal adds it to the resolvent that seen flags, clause and open counter stand for; the sizes keep `resolvent_size == open + clause.size ()` |
| `Analyze.Analyzer.AnalyzeReason` | implementations/cadical/src/analyze.cpp:319-330 | the same for all literals of a reason but the resolved one |
| `Analyze.Analyzer.NextSeen` | implementations/cadical/src/analyze.cpp:1096-1103 | the backward scan finds the latest open literal of the conflict level and never runs off the trail |
| `Analyze.Analyzer.Analyze` | implementations/cadical/src/analyze.cpp:1011-1119 | terminates with exactly the reference first-UIP clause less its root-level literals, asserting literal last; the clause is false, has one literal on the conflict level, and follows from the clauses that conflict and reasons come from |
| `Analyze.LearnedClauseEntailed` | implementations/cadical/src/analyze.cpp:261-273 | dropping root-level literals keeps the clause implied, since their negations are true in every model |
| `DrivingClause.NewDrivingClause` | implementations/cadical/src/analyze.cpp:468-506 | the sorted clause starts with its only literal of the conflict level, and the jump level is the highest level of the others, 0 for a unit |
| `DlisChoice.PicksOne` | document/Graphics/dpll_cdcl_dlis_sat_solver.py:125-132 | the score order has one best variable and sign: the choice is a function of formula and assignment |
| `Dlis.DlisSolver.CountLiterals` | document/Graphics/dpll_cdcl_dlis_sat_solver.py:93-108 | the occurrences of each unassigned literal in clauses without a true literal |
| `Dlis.DlisSolver.PickBranchingVariable` | document/Graphics/dpll_cdcl_dlis_sat_solver.py:88-132 | no other unassigned variable comes before the choice by larger count, sum, smaller index; true exactly if it occurs more often positively; none only if all are assigned |
| `ClauseOrder.NextKeeps` | document/Graphics/dpll_cdcl_dlis_sat_solver.py:168-182 | resolving on the last literal in clause order keeps the clause false and lowers the sum of 2^(trail position), although literals may come back |
| `ClauseOrder.LastPosition` | document/Graphics/dpll_cdcl_dlis_sat_solver.py:167-182 | the literal resolved on stands at the last position of the clause that is on the conflict level |
| `ClauseOrder.AnalyzedSound` | document/Graphics/dpll_cdcl_dlis_sat_solver.py:167-182 | the clause learned is implied and false, on every formula |
| `ClauseOrder.AnalyzedReaches` | document/Graphics/dpll_cdcl_dlis_sat_solver.py:167-182 | it reaches the conflict level, and it has several positions there if and only if the last of them is the decision |
| `Dlis.DlisSolver.ConflictAnalysis` | document/Graphics/dpll_cdcl_dlis_sat_solver.py:154-189 | terminates for every falsified clause, with that clause and the level to return to |
| `DlisLoop.OrderDecides` | document/Graphics/dpll_cdcl_dlis_sat_solver.py:142-182 | order decides what is learned: on [[2,-1],[3,-1],[-2,-3],[1,4,5],[1,6,7],[1,8,9]] with 1 decided the clause learned is [-2,-1], which does not propagate |
| `Dlis.DlisSolver.Learn` | document/Graphics/dpll_cdcl_dlis_sat_solver.py:222-227 | formula, invariant, level and pending clause as in the plain solver |
| `SearchRuns.LearnedByCorrect` | document/Graphics/dpll_cdcl_dlis_sat_solver.py:154-189 | for both solvers, on every formula: after any conflict above level 0 the clause learned is implied, false and over known variables; without empty clauses it reaches the level |
| `SearchRuns.TurnIsOne` | document/Graphics/dpll_cdcl_dlis_sat_solver.py:217-245 | a search state has at most one successor, for both solvers |
| `Dlis.DlisSolver.Solve` | document/Graphics/dpll_cdcl_dlis_sat_solver.py:208-245 | for every formula: a refusal is right, an assignment returned is a model if and only if no clause is empty, every turn is a turn of the relation, and the loop answers within n stalled turns exactly if no run has more than n |
| `SearchRuns.AnswerBounds` | document/Graphics/dpll_cdcl_dlis_sat_solver.py:208-245 | a run that answers bounds the stalls of all runs from its start |
| `Dlis.Answers` | document/Graphics/dpll_cdcl_dlis_sat_solver.py:208-245 | for every formula and every bound: some run answers with at most that many stalled turns if and only if no run has more |
| `DlisLoop.NeverAnswers` | document/Graphics/dpll_cdcl_dlis_sat_solver.py:167-182 | no run from [[1,2],[-2,1],[-1,2],[-2,-1]] ever answers: every state it reaches is a search state of the loop |
| `DlisLoop.LoopIsUnbounded` | document/Graphics/dpll_cdcl_dlis_sat_solver.py:179-182 | on that input the condition fails for every bound: every other turn learns a copy of a clause and stalls |
| `DlisLoop.FourIsUnsat` | document/Graphics/dpll_cdcl_dlis_sat_solver.py:208-216 | that input is unsatisfiable, and its clauses are non-empty without repeated literals |
| `DlisLoop.EmptyClauseAnswered` | document/Graphics/dpll_cdcl_sat_solver.py:197-198 | an empty clause counts as no conflict: for [[]] both solvers answer with a model although there is none |
| `Extension.IdRoundTrip` | implementations/cadical/src/extend.cpp:10-16 | a 64-bit clause id written as two ints is read back unchanged if and only if it is below 2^31 or at least 2^64 - 2^31 |
| `Extension.External.PushClause` | implementations/cadical/src/extend.cpp:47-55 | the flat stack then encodes one more entry |
| `Extension.External.PushClauseOnPivot` | implementations/cadical/src/extend.cpp:57-61 | the same for a clause with a witness literal, which is recorded |
| `Extension.External.PushBinaryClause` | implementations/cadical/src/extend.cpp:63-75 | the same for a binary clause |
| `Extension.External.Extend` | implementations/cadical/src/extend.cpp:114-197 | the backward walk over the integers computes exactly the replay of the pushed entries: last entry first, witness flipped where the clause is false |
| `Extension.External.TraverseBackward` | implementations/cadical/src/extend.cpp:201-230 | the iterator sees the stored entries in reverse push order and is stopped by its first refusal |
| `Extension.External.TraverseForward` | implementations/cadical/src/extend.cpp:232-262 | the same in push order |
| `Extension.StoredIsPushed` | implementations/cadical/src/extend.cpp:10-16 | entries with ids below 2^31 are seen as pushed |
| `Reconstruction.RunReconstructs` | implementations/cadical/src/extend.cpp:114-197 | over every run of steps that remove witness-redundant clauses and add consequences, the replay turns each model of the result into a model of the original |
| `Reconstruction.ReconstructedEverywhere` | implementations/cadical/src/extend.cpp:114-197 | the reconstructed model satisfies every formula on the way, in particular each clause removed |
| `Reconstruction.RunEquisatisfiable` | implementations/cadical/src/extend.cpp:114-197 | such runs keep satisfiability both ways |
| `Block.ScanLiterals` | implementations/cadical/src/block.cpp:67-130 | finds a literal that clashes with the marks, if any, and only permutes the clause |
| `Block.Blocker.IsBlockedClause` | implementations/cadical/src/block.cpp:43-145 | true exactly if every resolvent on the literal is tautological; clauses and occurrence list are only permuted, and restored or moved to front as stated |
| `Block.BlockedIsRedundant` | implementations/cadical/src/block.cpp:43-145 | a blocked clause is repaired by flipping the blocking literal in every model of the others |
| `Block.BlockedBefore` | implementations/cadical/src/block.cpp:609-641 | removing clauses with the literal makes no other clause blocked on it, so that the order of the tests does not matter |
| `Block.Blocker.BlockCandidates` | implementations/cadical/src/block.cpp:435-491 | exactly the clauses of acceptable size that clash with some clause of the other sign |
| `Block.NotFiltered` | implementations/cadical/src/block.cpp:435-491 | no blocked clause of acceptable size is filtered out |
| `Block.Blocker.BlockImpossible` | implementations/cadical/src/block.cpp:500-539 | a clause found clashes with no candidate; none is found only if every clause clashes with one |
| `Block.NoneBlocked` | implementations/cadical/src/block.cpp:500-539 | with such a clause no candidate is blocked |
| `Block.Blocker.BlockPure` | implementations/cadical/src/block.cpp:249-290 | exactly the clauses with a pure literal go, and are repaired |
| `Block.Blocker.BlockOneNegative` | implementations/cadical/src/block.cpp:298-427 | with one clause of the other sign exactly the blocked clauses of acceptable size go, and are repaired by the entries pushed |
| `Block.Blocker.BlockSeveral` | implementations/cadical/src/block.cpp:545-641 | the same with several clauses of the other sign |
| `Block.Blocker.BlockLiteral` | implementations/cadical/src/block.cpp:690-733 | what goes is repaired by the entries pushed; nothing changes for a frozen literal or with more live clauses of the other sign than the occurrence limit; otherwise a pure literal takes all its clauses along, and without one exactly the blocked clauses of acceptable size go |
| `Cover.Coveror.PropagateAsymmetric` | implementations/cadical/src/cover.cpp:100-176 | watches are moved correctly, and every literal added is false in each model that falsifies the covered literals; a subsumption means they cannot all be false; afterwards every other clause has a true literal or is watched by no literal visited so far, so that none is missed |
| `CoverWatches.ClosedAtEnd` | implementations/cadical/src/cover.cpp:358-367 | once all added literals have been visited, every other clause has a true literal or two unassigned ones, if no clause was watched by a literal false at level zero |
| `CoverWatches.PartlyStep` | implementations/cadical/src/cover.cpp:112-167 | what one visited watch contributes to that |
| `Cover.Coveror.IntersectCandidates` | implementations/cadical/src/cover.cpp:193-300 | the literals common to all resolution candidates that are not satisfied otherwise, or that there is no such candidate |
| `Cover.CoveredLiterals` | implementations/cadical/src/cover.cpp:64-77 | one covered step: flipping its literal repairs models that falsify the covered literals so far |
| `Cover.ReplayStep` | implementations/cadical/src/cover.cpp:49-60 | what replaying the entry of one step does to such a model |
| `Cover.Coveror.CopyExtension` | implementations/cadical/src/cover.cpp:375-448 | the private stack becomes entries whose clauses are the covered literals of each step, with the missing candidate literals added as the copy loop does |
| `Cover.Coveror.PropagateCovered` | implementations/cadical/src/cover.cpp:181-319 | either the extended clause is blocked on the literal, or the covered literals grow by the intersection, with their step pushed, or nothing changes, and then the variable is frozen or the open candidates have no unassigned literal in common |
| `Cover.Coveror.Propagate` | implementations/cadical/src/cover.cpp:358-367 | the interleaving ends, with a covered clause if it says so, and otherwise with all added literals visited and no covered literal of any further use |
| `Cover.Coveror.CoverClause` | implementations/cadical/src/cover.cpp:323-463 | whenever the clause becomes garbage, every model of what is left is turned into a model that satisfies it too by the entries pushed, although asymmetric literals are never stored; an asymmetric tautology stays and is implied; a clause that is given up cannot be extended any further and is neither blocked nor, with proper watches, subsumed |
| `Cover.Coveror.ConnectAll` | implementations/cadical/src/cover.cpp:512-546 | exactly the satisfied clauses become garbage; listed, in list order, are exactly the eligible clauses not tried before |
| `Cover.Coveror.Schedule` | implementations/cadical/src/cover.cpp:547-590 | exactly the eligible clauses are scheduled, in the order of the round; flags are cleared exactly if all of them were set |
| `CoverSchedule.StableSort` | implementations/cadical/src/cover.cpp:469-477 | the same clauses, tried ones first, then smaller ones, equal ones in the order of the list |
| `Cover.Coveror.CoverRound` | implementations/cadical/src/cover.cpp:479-641 | every clause that is not satisfied, of acceptable size and not frozen altogether is scheduled, those not tried before first, then larger ones, then later ones; they are tried in this order until the effort reaches its limit, each with an outcome of `cover_clause`; satisfied clauses are gone; the result counts the clauses found to be covered, the flags record the tries, and the entries repair every model |
| `Elim.Eliminator.Propagate` | implementations/cadical/src/elim.cpp:142-199 | units are propagated soundly and completely: afterwards every clause with a newly true literal is garbage, and every other one with a newly false literal is satisfied or has two unassigned literals |
| `UnitClosure.AllQuiet` | implementations/cadical/src/elim.cpp:142-199 | when the literals made true have all been worked off no clause with one of their negations is left unit or empty |
| `Elim.Eliminator.Strengthen` | implementations/cadical/src/elim.cpp:209-230 | a clause without the pivot and the false literals replaces it and is implied even without the pivot |
| `Elim.Eliminator.Resolve` | implementations/cadical/src/elim.cpp:264-462 | exactly one of these happens: an antecedent is garbage already and nothing changes; a satisfied one is dropped; a tautology changes nothing; an empty resolvent makes the clauses unsatisfiable; a unit is assigned, and propagated completely if asked for; antecedents that contain the resolvent are replaced by it; or the resolvent is to be added. Unless it is to be added the clauses without the pivot imply it afterwards |
| `ResolventCount.ResolventsAreBounded` | implementations/cadical/src/elim.cpp:473-542 | true if and only if no conflict is found, the pivot gets no value and neither bound is exceeded: of the pairs resolved, in the order of the lists, more than the number of clauses plus the bound leave a resolvent to be counted, or one such resolvent is too long; pairs passed over leave nothing to add; the clauses stay equivalent |
| `ResolventCount.SparedKept` | implementations/cadical/src/elim.cpp:497-536 | what held of the pairs passed over still holds after units, strengthened and dropped clauses of later resolutions |
| `Eliminate.AddResolvents` | implementations/cadical/src/elim.cpp:547-594 | afterwards all resolvents needed are implied by the clauses without the pivot, and every new clause comes from such a pair: of all clauses, or with a gate of one gate and one other clause |
| `VariableElimination.MarkEliminated` | implementations/cadical/src/elim.cpp:601-661 | exactly the clauses without the pivot are left; all its clauses are pushed, or with a gate the gate clauses, positive ones first |
| `Elimination.PivotValue` | implementations/cadical/src/elim.cpp:601-661 | the replay sets the pivot to true exactly if a positive clause forces it, or it was true and no negative clause forces it to false |
| `Elimination.PlainEliminated` | implementations/cadical/src/elim.cpp:547-661 | with all resolvents and all clauses pushed the replay satisfies all of them |
| `Elimination.GateEliminated` | implementations/cadical/src/elim.cpp:547-661 | with a gate, resolvents of gate and other clauses and pushed gate clauses suffice, although nothing else is pushed |
| `Eliminate.EliminationReconstructs` | implementations/cadical/src/elim.cpp:547-661 | the replay turns every model of the clauses without the pivot into a model of all clauses |
| `VariableElimination.TryToEliminate` | implementations/cadical/src/elim.cpp:667-722 | a variable is eliminated if and only if it is unassigned, not in too many clauses of both signs, gets no value on the way, leads to no conflict, and its resolvents are bounded; the sign with fewer clauses is tried, and a gate is searched for in them; models are kept by every try; the clauses flagged are live clauses with the pivot and form an equivalence or AND gate, which forces it, or an if-then-else or parity shape; if they force it, as they do when none of them is satisfied, the pushed entries restore every model |
| `VariableElimination.WhenUsable` | implementations/cadical/src/elim.cpp:667-722 | the clauses flagged force the pivot when none of them is satisfied, when satisfied clauses with the pivot had been dropped before the try, and always without the searches for if-then-else and parity |
| `VariableElimination.EliminateScheduled` | implementations/cadical/src/elim.cpp:875-889 | every variable scheduled is tried, unless the clauses become unsatisfiable, and eliminated exactly under the conditions of a try; all models are kept, and the entries pushed restore every model if each gate used forces its pivot, in particular if no clause flagged was satisfied, and always without the searches for if-then-else and parity |
| `VariableElimination.RoundRestores` | implementations/cadical/src/elim.cpp:875-889 | tries, each from the state the one before it left, compose: the replay of all entries restores every model if each gate was usable |
| `VariableElimination.RoundConditions` | implementations/cadical/src/elim.cpp:875-889 | three conditions for that which can be checked on the states in which gates were used or on the options |
| `SatisfiedGate.DelayedUnit` | implementations/cadical/src/elim.cpp:547-594 | with satisfied clauses dropped and propagation complete, resolving one pair without eager propagation assigns a literal that satisfies a clause with the next variable, and the clause stays |
| `SatisfiedGate.SatisfiedGateFlagged` | implementations/cadical/src/gates.cpp:504-574 | in the state that leaves, the search for an if-then-else flags four clauses, one of them satisfied, that do not force the variable |
| `SatisfiedGate.SatisfiedGateClause` | implementations/cadical/src/elim.cpp:547-661 | with those four flagged a model satisfies the values, the satisfied clauses and the resolvents of all pairs that are resolved, and no value of the variable repairs it |
| `GateLogic.EquivalenceGate` | implementations/cadical/src/gates.cpp:201-315 | the two binary clauses force the pivot to exactly one value |
| `GateLogic.AndGate` | implementations/cadical/src/gates.cpp:323-445 | a base clause and its binary side clauses force the pivot to exactly one value |
| `GateLogic.IteGate` | implementations/cadical/src/gates.cpp:504-574 | the four ternary clauses force the pivot to exactly one value if and only if none of them is satisfied by assigned literals |
| `GateLogic.XorGate` | implementations/cadical/src/gates.cpp:628-722 | the parity clauses do if and only if none of them is satisfied by assigned literals |
| `GateLogic.ShapesAreGates` | implementations/cadical/src/gates.cpp:504-722 | whatever is flagged as if-then-else or parity forces the pivot if and only if none of its clauses is satisfied |
| `GateLogic.NextEven` | implementations/cadical/src/gates.cpp:664-676 | counting up past odd numbers visits every number of even parity once, in order |
| `GateLogic.OneEven` | implementations/cadical/src/gates.cpp:628-722 | two sign vectors of even parity that agree on all positions but one are equal |
| `XorGates.NextSigns` | implementations/cadical/src/gates.cpp:664-676 | flipping only the changed signs in place gives the clause of the next sign vector of even parity |
| `Gates.FindEquivalence` | implementations/cadical/src/gates.cpp:201-315 | what is flagged forces the pivot to exactly one value, unconditionally; units found on the way are sound, and without new units a gate is flagged if and only if there are two live binary clauses with complementary second literals |
| `AndGates.FindAndGate` | implementations/cadical/src/gates.cpp:323-445 | the same for AND gates, flagged if and only if some base clause has a live binary side clause for each of its literals; marks are cleared |
| `IteGates.FindIfThenElse` | implementations/cadical/src/gates.cpp:504-574 | four clauses of the shape are flagged if and only if the lists hold such clauses, up to assigned literals |
| `XorGates.FindXorGate` | implementations/cadical/src/gates.cpp:628-722 | the same for parity up to the arity limit: all even sign vectors of some listed clause |
| `VariableElimination.FindGateClauses` | implementations/cadical/src/gates.cpp:731-747 | a gate is flagged if and only if one of the enabled searches has something to find, and it is of the first such kind in the order equivalence, AND on either side, if-then-else, parity |
| `Autarky.FlipKeeps` | implementations/cadical/src/condition.cpp:772-800 | making the autarky part true satisfies every clause that was satisfied |
| `Autarky.AutarkyIsRedundant` | implementations/cadical/src/condition.cpp:752-800 | with a split assignment and an autarky literal in the clause, the clause is redundant with the autarky part as witness |
| `Condition.Conditioner.Gather` | implementations/cadical/src/condition.cpp:287-396 | exactly the root-satisfied clauses go; the candidates are exactly the others with a true literal, in order; initially conditional are exactly the variables of false literals in clauses without a true one; every clause left is watched or guarded |
| `Autarky.InitialIsForced` | implementations/cadical/src/condition.cpp:363-386 | the initial conditional part is no restriction: some split of the assignment blocks a clause if and only if one with that part does |
| `Condition.Conditioner.Refine` | implementations/cadical/src/condition.cpp:563-705 | if an autarky literal is left and no limit was hit, the remaining assignment is split for the candidate; if none is left the candidate is blocked by no split of the initial assignment |
| `Condition.Conditioner.TryCandidate` | implementations/cadical/src/condition.cpp:508-834 | a candidate goes if and only if some split blocks it and the limit was not hit, and then flipping the autarky repairs every model; assignment, bits and conditional stack are the initial ones again |
| `Condition.Conditioner.AssignAll` | implementations/cadical/src/condition.cpp:177-208 | besides the root-level ones exactly the active variables that are not frozen have values, old ones or their saved phases |
| `Condition.Conditioner.FocusCandidates` | implementations/cadical/src/condition.cpp:452-469 | candidates not tried before come first, otherwise in order; if all have been tried they all count as untried |
| `Condition.Conditioner.TryCandidates` | implementations/cadical/src/condition.cpp:478-834 | the candidates that are no reasons are tried in order until the limit is hit; each but the last goes if and only if some split blocks it, and so does the last if the limit was not hit; one entry each |
| `Candidates.NotInAt` | implementations/cadical/src/condition.cpp:452-482 | the candidates kept are exactly those, in the order of their positions |
| `Condition.Conditioner.ConditionRound` | implementations/cadical/src/condition.cpp:155-940 | the candidates are the clauses satisfied by the assignment of all active variables that are not frozen; those that are no reasons are tried, not tried ones first, until the limit is hit or if there is no autarky, and each goes if and only if some split blocks it; assignment and trail are restored, every model of what is left is repaired by the entries, and no frozen variable is a witness |
| `Components.DepthFirst.SearchAll` | implementations/cadical/src/decompose.cpp:187-411 | the iterative search ends with a representative for every literal and no literal equivalent to its negation, or with such a literal |
| `Tarjan.ComponentOf` | implementations/cadical/src/decompose.cpp:225-368 | the nodes on the stack from the entry on are its strongly connected component |
| `Substitution.SameRepresentative` | implementations/cadical/src/decompose.cpp:303-368 | two literals of variables that are not frozen have the same representative if and only if each reaches the other |
| `Substitution.NegatedRepresentative` | implementations/cadical/src/decompose.cpp:303-368 | the representative of a negation is the negation of the representative |
| `Substitution.ModelsRespect` | implementations/cadical/src/decompose.cpp:187-411 | every model of the binary clauses gives a literal and its representative the same value |
| `Substitution.ConflictUnsatisfiable` | implementations/cadical/src/decompose.cpp:311-324 | a component with a literal and its negation leaves no model |
| `Substitution.ReplayRespects` | implementations/cadical/src/decompose.cpp:437-488 | replaying the two binary clauses per variable gives every literal the value of its representative |
| `Decompose.Decomposer.FindRepresentatives` | implementations/cadical/src/decompose.cpp:179-424 | on the watched binary clauses: a conflict is a literal equivalent to its negation and is found if there is one; otherwise frozen literals represent themselves, and the others are represented by the literal of their component with the smallest variable, shared exactly if they reach each other |
| `Decompose.Decomposer.SubstituteAll` | implementations/cadical/src/decompose.cpp:497-690 | all clauses are rewritten, and mean the same in models that respect the representatives; a clause of representatives stays, every other one is satisfied and goes, or is replaced by exactly the representatives of its literals that are not false; the flags tell exactly whether there is a new unit or binary clause |
| `Decompose.Decomposer.SubstituteClause` | implementations/cadical/src/decompose.cpp:497-650 | one turn of the loop touches one clause and leaves the others alone, with the outcomes above |
| `ClauseFates.FatesNext` | implementations/cadical/src/decompose.cpp:497-650 | turns over a list without repetition compose: every clause visited has met its fate, all others are as before |
| `Decompose.OnlyOneLeft` | implementations/cadical/src/decompose.cpp:437-724 | representatives in all clauses and retired variables leave one of two equivalent variables |
| `Decompose.BothActive` | implementations/cadical/src/decompose.cpp:707-719 | two equivalent variables without a value, not frozen, both stay active if and only if their representative got one |
| `Decompose.EquivalentOnesStay` | implementations/cadical/src/decompose.cpp:707-719 | with 2 and 3 represented by 1 the clause [1,2] becomes a unit, and both stay active |
| `Substitution.TwoEntries` | implementations/cadical/src/decompose.cpp:437-488 | both entries of every variable with another representative are pushed, one after the other |
| `Decompose.Decomposer.DecomposeRound` | implementations/cadical/src/decompose.cpp:144-734 | a literal equivalent to its negation makes the clauses unsatisfiable; otherwise of two equivalent variables that are not frozen one is left in the clauses, and only one active unless their representative got a value; two entries are pushed for each variable retired; success means a conflict, a new value or a new binary clause; the clauses left and the pushed pairs have the same models as the original clauses, and the replay restores the irredundant ones |
| `Checking.Checker.Propagate` | implementations/cadical/src/checker.cpp:384-445 | watches and trail stay in order; false only if the originals imply the clause checked, true only at a fixpoint |
| `Checking.Checker.Backtrack` | implementations/cadical/src/checker.cpp:362-377 | assignment and trail are as before the check |
| `Checking.Checker.Check` | implementations/cadical/src/checker.cpp:447-457 | accepted clauses are implied; a refusal comes with an assignment that falsifies the clause and is closed under propagation over all stored clauses |
| `Simplify.Tautological` | implementations/cadical/src/checker.cpp:269-287 | true exactly if the clause has complementary literals or a true one; otherwise the sorted clause has the same literals, each once |
| `ClauseTable.Enlarge` | implementations/cadical/src/checker.cpp:87-106 | twice the size, exactly the same clauses, each in the chain of its hash |
| `Checking.Checker.WatchTwo` | implementations/cadical/src/checker.cpp:53-66 | a permutation of the clause with two unassigned literals in front |
| `Checking.Checker.Insert` | implementations/cadical/src/checker.cpp:334-342 | one more clause with these literals is stored and watched, and it heads the chain of its hash |
| `Checking.Checker.AddClause` | implementations/cadical/src/checker.cpp:461-500 | an implied clause is stored, assigned and propagated, or makes the checker inconsistent: what is stored then represents the clauses added so far and this one |
| `Checking.Checker.CollectGarbage` | implementations/cadical/src/checker.cpp:121-168 | exactly the garbage and the satisfied clauses disappear, from table, lists and memory |
| `Checking.Checker.Find` | implementations/cadical/src/checker.cpp:310-332 | a clause with that hash and these literals, or none only if there is none |
| `Checking.Checker.AddOriginalClause` | implementations/cadical/src/checker.cpp:502-519 | one more original, and one more clause added: of every clause that is not trivially true there are as many live stored copies as were added and not deleted |
| `LiveClauses.FixpointOfAdded` | implementations/cadical/src/checker.cpp:384-445 | a fixpoint over the stored clauses is one over the clauses added and not deleted |
| `Checking.Checker.AddDerivedClause` | implementations/cadical/src/checker.cpp:521-545 | over every run: an accepted clause is a consequence of all originals so far, although deleted clauses may still propagate, and is added; for a refused one there is an assignment that extends the current one, falsifies the clause and settles every clause added and not deleted |
| `Checking.Checker.DeleteClause` | implementations/cadical/src/checker.cpp:549-583 | exactly one copy of the clause becomes garbage and is no longer counted as added, or none is known; satisfied and tautological clauses are accepted without effect |
| `Checking.Checker.TrailIsFixpoint` | implementations/cadical/src/checker.cpp:384-445 | between operations the trail follows from the originals, and every clause added and not deleted has a true literal or two unassigned ones |
| `Checking.Checker.InconsistentIsUnsatisfiable` | implementations/cadical/src/checker.cpp:461-500 | an inconsistent checker has unsatisfiable originals |
| `Aig.DenoteStable` | implementations/cadical/contrib/craigtracer.cpp:118-163 | adding nodes never changes what an existing edge means |
| `Aig.HashConsed` | implementations/cadical/contrib/craigtracer.cpp:118-163 | no two nodes are the same variable or the same gate |
| `Aig.Graph.CreateAnd` | implementations/cadical/contrib/craigtracer.cpp:137-163 | an edge for the conjunction: the constant and complement rules give an existing one, and at most the one gate is added |
| `Aig.Graph.CreateAndAll` | implementations/cadical/contrib/craigtracer.cpp:165-186 | an edge for the conjunction of a list |
| `Aig.Graph.CreateCnf` | implementations/cadical/contrib/craigtracer.cpp:198-277 | terminates; for every assignment of the external variables the clauses have exactly one extension to the new ones, and the last literal has the value of the edge; constants need no clauses |
| `Craig.EmptyClauseInterpolant` | implementations/cadical/contrib/craigtracer.cpp:537-591 | the invariant for the empty clause is the definition of an interpolant |
| `Craig.ResolutionPartial` | implementations/cadical/contrib/craigtracer.cpp:677-745 | the resolution rule keeps the partial interpolant invariant in all three systems that combine directly |
| `Craig.DualIsNegation` | implementations/cadical/contrib/craigtracer.cpp:700-745 | the dual symmetric rule computes the negation of the symmetric one, over the same global variables |
| `CraigTracing.CraigTracer.CreateInterpolant` | implementations/cadical/contrib/craigtracer.cpp:620-675 | original clauses get partial interpolants in all four systems, with global variables only |
| `CraigTracing.CraigTracer.ExtendInterpolant` | implementations/cadical/contrib/craigtracer.cpp:677-745 | so do resolvents |
| `CraigTracing.CraigTracer.AddOriginalClause` | implementations/cadical/contrib/craigtracer.cpp:396-422 | the invariant holds for all clauses with the new one on its side |
| `CraigTracing.CraigTracer.AddDerivedClause` | implementations/cadical/contrib/craigtracer.cpp:424-461 | and for a clause derived along a valid chain |
| `CraigCnf.Join` | implementations/cadical/contrib/craigtracer.cpp:872-945 | the trigger clauses of UNION and INTERSECTION stand for the conjunction and the disjunction of the parts |
| `CraigTracing.CraigTracer.CreateCraigInterpolant` | implementations/cadical/contrib/craigtracer.cpp:748-972 | the clauses returned encode an interpolant of the two sides; for one system none is built if and only if there is no interpolant or the system is not enabled, and otherwise that of the system; for the combined requests the conjunction or disjunction over all enabled systems, or one of the fewest or the most clauses among these; fresh variables only |
| `Flip.Flipper.Repropagate` | implementations/cadical/src/propagate.cpp:487-567 | in a total model every clause ends with a true watched literal; binary watches of true literals are not touched |
| `Flip.Flipper.FlipLiteral` | implementations/cadical/src/flip.cpp:5-154 | succeeds if and only if the variable is active or unused, no clause depends on the literal and every binary watch of it has a true blocking literal; then exactly this value and trail entry change; on both outcomes every clause of an active or unused variable ends with a true watch and nothing awaits repropagation |
| `Flip.Flipper.Flippable` | implementations/cadical/src/flip.cpp:156-251 | gives the same answer from the same state and changes no value |
| `FlipWatches.StuckExactly` | implementations/cadical/src/flip.cpp:39-48 | without garbage binary clauses in the list the condition is that no clause depends on the literal |
| `FlipWatches.FlipSupports` | implementations/cadical/src/flip.cpp:50-104 | after the scan every clause keeps a true watch under the flipped value |
| `DecisionQueue.Queue.Dequeue` | implementations/cadical/src/queue.hpp:39-49 | the links spell the list without the variable |
| `DecisionQueue.Queue.Enqueue` | implementations/cadical/src/queue.hpp:51-59 | the links spell the list with the variable at its end |
| `DecisionQueue.Queue.Bump` | implementations/cadical/src/analyze.cpp:52-65 | a variable that is not the last moves to the end with the next stamp, and the pointer follows it if and only if it is unassigned; for the last one nothing changes; the pointer still bounds the unassigned variables |
| `DecisionQueue.Queue.InitEnqueue` | implementations/cadical/src/queue.cpp:26-39 | a new variable enters at the end with the next stamp, the pointer moves to it, and the invariant holds |
| `DecisionQueue.Queue.InitEnqueueReverse` | implementations/cadical/src/queue.cpp:10-25 | the new variable is the first, one stamp below the old first one; the invariant survives if and only if that stamp is not above the stored stamp of the pointer |
| `DecisionQueue.StalePointer` | implementations/cadical/src/decide.cpp:12-24 | a run after which the stored stamp is below the stamps of all variables |
| `DecisionQueue.ReversePointerLost` | implementations/cadical/src/queue.cpp:10-25 | two more variables enter in front, one is assigned and unassigned: the pointer moves to it although an unassigned variable lies behind |
| `QueueList.UnassignedBefore` | implementations/cadical/src/backtrack.cpp:23-30 | every unassigned variable lies at or before the pointer |
| `DecisionQueue.Queue.NextOnQueue` | implementations/cadical/src/decide.cpp:12-24 | the unassigned variable bumped last; the pointer moves there |
| `DecisionQueue.Queue.NextWithDlis` | implementations/cadical/src/internal.cpp:1339-1372 | 0 exactly if all variables are assigned; otherwise an unassigned variable with the largest half, rounded down, of the number of open watches of both literals, the one bumped last among equals |
| `DecisionQueue.OpenCounted` | implementations/cadical/src/internal.cpp:1182-1198 | the count is the number of positions of the watch list whose clause is not garbage and whose blocking literal is unassigned |
| `Backtrack.Internal.Unassign` | implementations/cadical/src/backtrack.cpp:10-30 | queue and heap stay complete when a variable loses its value |
| `Backtrack.Internal.SearchAssign` | implementations/cadical/src/propagate.cpp:103-169 | so they do when one gets a value on any level up to the current one |
| `Backtrack.Internal.BacktrackTo` | implementations/cadical/src/backtrack.cpp:76-163 | exactly the literals above the level lose their values; the others stay on the trail in order with correct positions; the control stack is cut, the propagation counters become the smaller of themselves and the trail size at the level, repropagation starts over, and queue and heap are complete |
| `TrailCompaction.KeptAt` | implementations/cadical/src/backtrack.cpp:100-134 | kept are exactly the trail positions on levels up to the new one, in their order |
| `Backtrack.Internal.NextWithBestScore` | implementations/cadical/src/decide.cpp:28-38 | an unassigned variable of maximal score; only assigned ones leave the heap |
| `Decide.DecideConstraint` | implementations/cadical/src/decide.cpp:143-216 | the first true literal moves to the front and the rest keeps its order; without one the constraint is unchanged and the best unassigned literal is decided, or none is left |
| `HeapOrder.UpStep` | implementations/cadical/src/heap.hpp:73-77 | exchanging with a smaller parent moves the only loose place up |
| `HeapOrder.DownStep` | implementations/cadical/src/heap.hpp:81-93 | exchanging with the larger child moves it down |
| `HeapOrder.FirstIsMaximal` | implementations/cadical/src/heap.hpp:156-159 | the first element is a maximum for every strict weak order |
| `HeapOrder.KeyChanged` | implementations/cadical/src/heap.hpp:178-183 | when the key of one element changes at will, only its place is loose |
| `Heap.PriorityQueue.PushBack` | implementations/cadical/src/heap.hpp:143-152 | one more element; order and mutual inverse positions hold |
| `Heap.PriorityQueue.PopFront` | implementations/cadical/src/heap.hpp:163-174 | exactly a maximum is removed; order and positions hold |
| `Heap.PriorityQueue.Update` | implementations/cadical/src/heap.hpp:178-183 | order is restored after an arbitrary key change of one element, with the same elements |
| `Benchmarks.GeneratePigeonhole` | implementations/generate_benchmarks.py:110-126 | for every number of holes: the first clauses say that each pigeon has a hole, the others that no hole is shared, and together they have no model |
| `Benchmarks.NoSeating` | implementations/generate_benchmarks.py:110-120 | the pigeonhole principle |
| `Coloring.GenerateColoring` | implementations/generate_benchmarks.py:128-151 | three groups of clauses: every vertex has a colour, none has two, and the ends of an edge differ; the models are the assignments of exactly one colour per vertex with different colours across every edge |
| `Coloring.ModelIsColoring` | implementations/generate_benchmarks.py:137-148 | every model encodes a proper colouring |
| `Coloring.ColoringIsModel` | implementations/generate_benchmarks.py:137-148 | every assignment that encodes a proper colouring is a model |
| `Coloring.OneColoring` | implementations/generate_benchmarks.py:137-148 | a model encodes only one colouring |
| `Coloring.OneModel` | implementations/generate_benchmarks.py:131-132 | over the n k variables a colouring is encoded by only one assignment |
| `Coloring.EncodingExists` | implementations/generate_benchmarks.py:131-132 | every colouring is encoded by an assignment of these variables |
| `Benchmarks.GenerateParity` | implementations/generate_benchmarks.py:155-163 | the models are those with exactly one true variable |
| `Benchmarks.GenerateFlipFlop` | implementations/generate_benchmarks.py:167-178 | the clauses of the steps say that the variables alternate, and the last two fix the first and the last variable |
| `Benchmarks.FlipFlopSatisfiable` | implementations/generate_benchmarks.py:167-178 | there is one if and only if the depth is even |

## Findings

Properties that the code does not have, each with an input and with the condition under which it does hold.

* The DLIS solver need not end. On [[1,2],[-2,1],[-1,2],[-2,-1]] it learns copies of its own clauses forever
  (`DlisLoop.NeverAnswers`, `Dlis.FourClauses`), because its analysis breaks off when the last literal in clause order
  is the decision (document/Graphics/dpll_cdcl_dlis_sat_solver.py:180-182). A learning turn stalls if propagation then
  has nothing to do; the solver answers if and only if its runs have a bounded number of stalls (`Dlis.Answers`).
* The plain solver need not end when a clause repeats a literal: a clause that repeats its only unassigned literal does
  not count as unit (document/Graphics/dpll_cdcl_sat_solver.py:51-58), so [[-1,-1]] is decided wrongly and learned
  forever (`CdclLoop.RepeatNeverAnswers`). Without empty clauses it answers if and only if no turn stalls
  (`StallLoop.OneStallIsForever`, `CdclSolver.Answers`), and `StallLoop.StallStops` and `TrailOrder.LearnedStops` tie a
  stall to an analysis that stops at the decision; without repeated literals there is none.
* Both Python solvers take an empty input clause for no conflict (document/Graphics/dpll_cdcl_sat_solver.py:197-198,
  document/Graphics/dpll_cdcl_dlis_sat_solver.py:218) and answer [[]] with a model (`DlisLoop.EmptyClauseAnswered`).
  An assignment returned is a model if and only if no input clause is empty, and a refusal is always right
  (`CdclSolver.SATSolver.Solve`, `Dlis.DlisSolver.Solve`).
* Clause ids of 2^31 and more do not survive the extension stack: the upper half is computed with a shift in the
  wrong direction and the lower half is sign-extended (implementations/cadical/src/extend.cpp:10-16).
  `Extension.IdRoundTrip` gives the exact range.
* Gate detection for if-then-else and parity skips assigned literals whatever their value is
  (implementations/cadical/src/gates.cpp:451-471), and units found while resolvents are added are not propagated before
  the next variable is tried (implementations/cadical/src/elim.cpp:579). `SatisfiedGate` follows one database: a delayed
  unit satisfies a clause that stays (`SatisfiedGate.DelayedUnit`), the detector flags it in a gate
  (`SatisfiedGate.SatisfiedGateFlagged`), and a model of all resolvents then added cannot be repaired
  (`SatisfiedGate.SatisfiedGateClause`). What is flagged is a gate if and only if none of its clauses is satisfied
  (`GateLogic.ShapesAreGates`), always for equivalences and AND gates, and `VariableElimination.RoundConditions` says
  when a round reconstructs.
* With the option `reverse` a new variable may get a stamp above the one stored for the search pointer
  (implementations/cadical/src/queue.cpp:10-25), after which an unassigned variable may lie behind the pointer
  (`DecisionQueue.ReversePointerLost`, from the run of `DecisionQueue.StalePointer`);
  `DecisionQueue.Queue.InitEnqueueReverse` gives the exact condition.
* `flip` and `flippable` do not look at the garbage flag of binary clauses (implementations/cadical/src/flip.cpp:44-53):
  a deleted binary clause can make them fail. `FlipWatches.StuckExactly` and the contracts of both say exactly when.
* Of several equivalent variables more than one can stay active after a round of substitution: a variable whose
  representative is assigned on the way is pushed and occurs nowhere, but is not retired
  (implementations/cadical/src/decompose.cpp:707-719). With [-1,2], [-2,3], [-3,1] and [1,2] the round assigns 1 and
  leaves 2 and 3 active (`Decompose.EquivalentOnesStay`); `Decompose.BothActive` gives the exact condition.
* `generate_parity` encodes that exactly one variable is true, not parity (`Benchmarks.GenerateParity`).
* `count_literal_in_unsatisfied_clauses_` is described as skipping satisfied clauses, but also skips those whose
  blocking literal is false (implementations/cadical/src/internal.cpp:1193-1194); `DecisionQueue.Queue.CountWatches`
  follows the code.

## Left out

* CdclSolver.SATSolver.Solve: the loop has a bound on stalled turns that the program does not have, since the program
  may run forever.
* CdclSolver.SATSolver.PickBranchingVariable: the order in which a Python set is visited is a parameter.
* Dlis.DlisSolver.Solve: the same bound; sorting the scores is taking the best one.
* Analyze.Analyzer.Analyze: on-the-fly strengthening, LRAT chains, external reasons and the chronological branch are
  switched off; a root-level literal has as its reason the unit clause learned for it.
* DrivingClause.NewDrivingClause: the radix sort is an insertion sort, and glue and the clause object are not modelled.
* Extension.External.Extend: the mapping between internal and external literals is the identity.
* Block.Blocker.BlockLiteral: schedules, rescheduling and the sorting of occurrence lists do not matter for the result.
* Cover.Coveror.CoverClause: that nothing is missed needs clauses whose watches are not false at level zero, as
  propagation before the round leaves them; which of several covered literals comes first decides what is pushed.
* Cover.Coveror.CoverRound: how the effort allowed follows from options and search effort, asynchronous termination,
  and the sorting of occurrence lists by size, which decides only which literal of an intersection comes first.
* ResolventCount.ResolventsAreBounded: the count of tries and other statistics are left out.
* VariableElimination.TryToEliminate: backward subsumption after each variable, scores, rescheduling and the sorting of
  the two occurrence lists are left out; the contract holds for every order of the lists.
* VariableElimination.EliminateScheduled: does not state that every round reconstructs, since delayed units break this.
* Gates.FindEquivalence: does not state which gate is flagged when units are found on the way, nor which satisfied and
  repeated binary clauses are dropped.
* AndGates.FindAndGate: the same.
* Condition.Conditioner.ConditionRound: decision levels, statistics and asynchronous termination are left out, and the
  limit is a parameter.
* Components.DepthFirst.SearchAll: the mark TRAVERSED of finished nodes is a set.
* Decompose.Decomposer.DecomposeRound: the propagation of new units at the end and the flushing of watches are left
  out; proof clauses are not written.
* Checking.Checker.AddClause: does not state when garbage is collected and the table grows, which changes nothing that
  is stored; statistics are left out.
* Checking.Checker.EnlargeVars: tables that grow are maps, and the number of variables is unbounded.
* ClauseTable.ReduceHash: masking with the table size less one is the remainder, for a power of two.
* Checking.Checker.DeleteClause: a clause that is not trivial, in a checker that is not inconsistent, can only be
  deleted once a clause has been stored, as `reduce_hash` asserts (implementations/cadical/src/checker.cpp:292).
* Checking.Checker.AddAssumptionClause: conclusions from assumptions are checked but not followed further.
* CraigTracing.CraigTracer.AddDerivedClause: proof chains are those a strict reverse unit propagation produces; labels
  are fixed, and assumptions and constraints are left out.
* Flip.Flipper.FlipLiteral: the tainted literal of the option `ilb` is left out.
* DecisionQueue.Queue.NextWithDlis: averages are exact integers where the program stores them as floats.
* Backtrack.Internal.BacktrackTo: target and best phases and notifications are left out.
* Backtrack.Internal.NextWithBestScore: the scores are an arbitrary strict weak order; floating point and rescaling are
  left out.
* Decide.DecideConstraint: assumptions, phases and decision levels are left out.
* Benchmarks.GeneratePigeonhole: writing files is left out, as it is for all encoders; the random edges of the
  colouring encoder are a parameter.
* Integers are unbounded, except where a width matters: clause ids and the hash of the checker.
* Arena garbage collection, `compact`, shuffling the queue, file formats and options would add only easy members.

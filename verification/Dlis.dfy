/** The solver of dpll_cdcl_dlis_sat_solver.py.  It shares clause checking,
    unit propagation, resolution and backjumping with the plain CDCL solver,
    line for line, and differs in its conflict analysis and branching rule. */
module Dlis {
  import opened Logic
  import opened ImplicationGraph
  import opened SearchState
  import opened SearchRank
  import opened SearchSteps
  import opened TrailOrder
  import opened ClauseOrder
  import opened DlisChoice
  import opened SearchRuns
  import opened CdclSolver
  import DlisLoop

  class DlisSolver {
    const base: SATSolver

    constructor (formula: seq<Clause>)
      ensures fresh(base) && base.Valid() && base.original == formula
      ensures State() == Searched(formula, Graph([], map[], map[], map[], map[]), 0)
    {
      base := new SATSolver(formula, []);
    }

    ghost function State(): Search
      reads base
    {
      Searched(base.formula, base.G(), base.decisionLevel)
    }

    /** The variables of the formula. */
    method AllVars() returns (vars: set<Variable>)
      ensures vars == VarsOf(base.formula)
    {
      vars := {};
      for i := 0 to |base.formula|
        invariant vars == VarsOf(base.formula[..i])
      {
        var clause := base.formula[i];
        for j := 0 to |clause|
          invariant vars == VarsOf(base.formula[..i]) + ClauseVars(clause[..j])
        {
          ClauseVarsOfPrefix(clause, j);
          vars := vars + {Var(clause[j])};
        }
        assert clause[..|clause|] == clause;
        VarsOfPrefix(base.formula, i);
      }
      assert base.formula[..|base.formula|] == base.formula;
    }

    /** How often each unassigned literal occurs in clauses not yet satisfied. */
    method CountLiterals() returns (pos: map<int, nat>, neg: map<int, nat>)
      ensures forall v: Variable :: v !in base.assignments ==>
        && Get(pos, v) == OpenCount(base.formula, base.assignments, v)
        && Get(neg, v) == OpenCount(base.formula, base.assignments, Neg(v))
    {
      hide StatusOf, OpenLits;
      pos, neg := map[], map[];
      ghost var f, value := base.formula, base.assignments;
      for i := 0 to |base.formula|
        invariant Tallied(pos, neg, f[..i], [], value)
      {
        var clause := base.formula[i];
        var status := base.CheckClause(clause);
        TallyNext(pos, neg, f, i, value);
        if status == Satisfied {
          continue;
        }
        pos, neg := CountClause(pos, neg, clause, base.assignments, f[..i]);
        TallyDone(pos, neg, f, i, value);
      }
      assert f[..|f|] == f;
    }

    /** The best of the unassigned variables by DLIS, and its better sign. */
    method PickBranchingVariable() returns (choice: Option<(Variable, bool)>)
      ensures choice.None? ==> VarsOf(base.formula) <= base.assignments.Keys
      ensures choice.Some? ==>
        Picks(base.formula, base.assignments, if choice.value.1 then choice.value.0 else Neg(choice.value.0))
    {
      hide StatusOf, OpenCount, VarsOf;
      var pos, neg := CountLiterals();
      var allVars := AllVars();
      var rest := allVars - base.assignments.Keys;
      assert forall v :: v in allVars ==> v in base.assignments || v in rest;
      if rest == {} {
        return None;
      }
      var best: Variable :| best in rest;
      ghost var seen: set<Variable> := {best};
      rest := rest - {best};
      while rest != {}
        invariant rest + seen == allVars - base.assignments.Keys && best in seen
        invariant forall u: Variable :: u in seen && u != best ==>
          Ahead(ScoreOf(Get(pos, best), Get(neg, best), best), ScoreOf(Get(pos, u), Get(neg, u), u))
        decreases rest
      {
        var v: Variable :| v in rest;
        rest, seen := rest - {v}, seen + {v};
        if Ahead(ScoreOf(Get(pos, v), Get(neg, v), v), ScoreOf(Get(pos, best), Get(neg, best), best)) {
          best := v;
        }
      }
      return Some((best, Get(pos, best) > Get(neg, best)));
    }

    /** Resolve on the last literal of the current level in clause order until
        at most one is left or the decision is met, which `stopped` reports. */
    method ConflictAnalysis(conflict: Clause) returns (learned: Clause, backjumpLevel: nat, stopped: bool)
      requires WellFormed(base.G()) && Falsified(Lits(conflict), base.G()) && base.decisionLevel > 0
      requires forall v :: v in base.levels ==> base.levels[v] <= base.decisionLevel
      ensures learned == Analyzed(conflict, base.G(), base.decisionLevel)
      ensures JumpLevel(learned, base.G(), base.decisionLevel, backjumpLevel)
      ensures stopped <==> !SoleOn(learned, base.G(), base.decisionLevel)
    {
      hide WellFormed, Weight, AtLevel, NextClause, JumpLevel, Falsified, SoleOn;
      ghost var g, lv := base.G(), base.decisionLevel;
      WellFormedIndexed(g);
      learned, stopped := conflict, false;
      while true
        invariant !stopped
        invariant Falsified(Lits(learned), g) && Analyzed(learned, g, lv) == Analyzed(conflict, g, lv)
        decreases Weight(Lits(learned), g.trail, |g.trail|)
      {
        var count, lastLiteral := LastOnCurrentLevel(learned);
        OnLevelCount(learned, g, lv);
        if count <= 1 {
          break;
        }
        ReasonKnown(learned);
        var reason := base.reasons[Var(lastLiteral.value)];
        if reason == None {
          stopped := true;
          break;
        }
        NextKeeps(learned, g, lv);
        NextIsResolvent(learned, g, lv);
        learned := Resolve(learned, reason.value, lastLiteral.value);
      }
      base.FalsifiedLevels(learned);
      backjumpLevel := base.BackjumpLevel(learned);
    }

    /** How many literals of `clause` are on the current level, and the last. */
    method LastOnCurrentLevel(clause: Clause) returns (count: nat, lastLiteral: Option<Lit>)
      ensures var lits := OnLevel(clause, base.G(), base.decisionLevel);
        count == |lits| && lastLiteral == if lits == [] then None else Some(lits[|lits|-1])
    {
      count, lastLiteral := 0, None;
      for i := 0 to |clause|
        invariant var lits := OnLevel(clause[..i], base.G(), base.decisionLevel);
          count == |lits| && lastLiteral == if lits == [] then None else Some(lits[|lits|-1])
      {
        var lit := clause[i];
        assert clause[..i+1][..i] == clause[..i];
        if Var(lit) in base.levels && base.levels[Var(lit)] == base.decisionLevel {
          count, lastLiteral := count + 1, Some(lit);
        }
      }
      assert clause[..|clause|] == clause;
    }

    lemma ReasonKnown(c: Clause)
      requires Indexed(base.G()) && |OnLevel(c, base.G(), base.decisionLevel)| > 1
      ensures var lits := OnLevel(c, base.G(), base.decisionLevel); Var(lits[|lits|-1]) in base.reasons
    {
      LastOnLevel(c, base.G(), base.decisionLevel);
    }

    /** Learn from a conflict and backjump. */
    method Learn(conflict: Clause)
      requires base.Valid() && Quiet(base.formula, base.G(), base.decisionLevel) && base.decisionLevel > 0
      requires conflict in base.formula && Falsified(Lits(conflict), base.G())
      modifies base
      ensures base.original == old(base.original)
      ensures base.Valid() && Quiet(base.formula, base.G(), base.decisionLevel)
      ensures base.decisionLevel < old(base.decisionLevel)
      ensures Learns(DlisRules, old(base.formula), old(base.G()), old(base.decisionLevel), conflict, State())
      ensures old(base.Progress(false)) < base.Progress(true)
    {
      hide Searching, Quiet, Falsified, PendingIn, Rank, Implies, Analyzed, Monotone, CutsAt, Reaches,
           WellFormed, SoleOn, Learns, JumpLevel, VarsOf, ClauseVars, NoDuplicates, NonEmpty;
      ghost var g, f, lv := base.G(), base.formula, base.decisionLevel;
      SearchingParts(f, g, lv);
      LearnedByCorrect(DlisRules, f, g, lv, conflict);
      var learnedClause, backjumpLevel, stopped := ConflictAnalysis(conflict);
      base.formula := base.formula + [learnedClause];
      ghost var n := base.Backjump(backjumpLevel);
      base.decisionLevel := backjumpLevel;
      AfterJump(f, g, lv, learnedClause, backjumpLevel, n);
      StillConservative(base.original, f, learnedClause);
      OneMore(f, learnedClause);
      JumpBelow(learnedClause, g, lv, backjumpLevel);
      JumpRaises(f, g, lv, backjumpLevel, VarsOf(base.original));
      JumpIsLearning(DlisRules, f, g, lv, conflict, backjumpLevel, n, State());
    }

    /** Alternates propagation with learning or deciding.  Every turn is a `Turn`.
        A refusal is right; a model is right exactly if no clause is empty.  The
        loop answers within `patience` learning turns that give propagation nothing
        to do exactly if no run has more of them. */
    method Solve(patience: nat) returns (verdict: Verdict, ghost run: seq<Search>)
      requires base.Valid() && base.decisionLevel == 0
      modifies base
      ensures base.original == old(base.original)
      ensures verdict.Unsatisfiable? ==> Unsat(base.original)
      ensures verdict.Satisfiable? ==> verdict.model.Keys == VarsOf(base.original)
      ensures verdict.Satisfiable? ==> (SatAll(base.original, ModelOf(verdict.model)) <==> NonEmpty(base.original))
      ensures IsRun(DlisRules, run) && run[0] == old(State())
      ensures verdict.Unsatisfiable? ==> run[|run|-1] == Answered(None)
      ensures verdict.Satisfiable? ==> run[|run|-1] == Answered(Some(verdict.model))
      ensures if verdict.Unfinished? then Stalls(run) == patience + 1 else Stalls(run) <= patience
      ensures !verdict.Unfinished? <==> StallsAtMost(DlisRules, old(State()), patience)
    {
      hide Searching, Quiet, PendingIn, Settled, Falsified, Rank, Implies, Turn, Stalled, IsRun,
           Stalls, RankLimit, Propagate, Learns, Decides, LearnedBy, SoleOn, WellFormed, Sound,
           VarsOf, Unsat, SatAll, ModelOf, Grows, StallsAtMost, Idle, NonEmpty;
      var pending := false;
      var left := patience;
      ghost var owes := false;
      run := [State()];
      SingleRun(DlisRules, State());
      NothingBelow(base.formula, base.G());
      while true
        invariant base.original == old(base.original)
        invariant base.Valid() && Quiet(base.formula, base.G(), base.decisionLevel)
        invariant IsRun(DlisRules, run) && run != [] && run[0] == old(State()) && run[|run|-1] == State()
        invariant Stalls(run) == patience - left + (if owes then 1 else 0) && 0 <= left <= patience
        invariant owes <==> pending && Idle(State())
        decreases left, base.Limit() - base.Progress(pending)
      {
        ghost var s := State();
        base.ProgressBounded(pending);
        base.InScope();
        var size := |base.decisionStack|;
        var conflict := base.UnitPropagate();
        base.SizesTell(s, size);
        base.PropagationRaises(s.g, pending && |base.decisionStack| > size);
        if pending && |base.decisionStack| == size {
          if left == 0 {
            NotFinished(DlisRules, run, patience);
            return Unfinished, run;
          }
          left := left - 1;
        }
        if conflict.Some? && conflict.value != [] {
          if base.decisionLevel == 0 {
            base.ConflictRefutes(conflict.value);
            RefutedRun(DlisRules, run, s, patience);
            run := run + [Answered(None)];
            return Unsatisfiable, run;
          }
          Learn(conflict.value);
          LearningRun(DlisRules, run, s, State());
          run := run + [State()];
          pending := true;
          owes := Idle(State());
        } else {
          base.NotEmptyConflict(conflict);
          var model := DecideNext();
          if model.Some? {
            base.AssignmentAnswers();
            AnsweringRun(DlisRules, run, s, model.value, patience);
            run := run + [Answered(model)];
            return Satisfiable(model.value), run;
          }
          DecidingRun(DlisRules, run, s, State());
          run := run + [State()];
          pending := false;
          owes := false;
        }
      }
    }

    /** Answer with the assignment once it is total; decide otherwise. */
    method DecideNext() returns (model: Option<map<int, bool>>)
      requires base.Valid() && Quiet(base.formula, base.G(), base.decisionLevel)
      requires NonEmpty(base.formula) ==> forall c :: c in base.formula ==> Settled(c, base.assignments)
      modifies base
      ensures base.original == old(base.original) && base.formula == old(base.formula)
      ensures model.Some? <==> VarsOf(old(base.formula)) <= old(base.assignments.Keys)
      ensures model.Some? ==> State() == old(State()) && model.value == base.assignments && base.Valid()
      ensures model.None? ==> base.Valid() && Quiet(base.formula, base.G(), base.decisionLevel)
      ensures model.None? ==> old(base.Progress(false)) < base.Progress(false)
      ensures model.None? ==> Decides(DlisRules, old(base.formula), old(base.G()), old(base.decisionLevel), State())
    {
      hide Searching, Quiet, Settled, Rank, Implies, VarsOf, StatusOf, OpenCount, Decides;
      var allVars := AllVars();
      var current := base.assignments;
      if allVars <= current.Keys {
        return Some(current);
      }
      var choice := PickBranchingVariable();
      if choice == None {
        return Some(current);
      }
      var l := if choice.value.1 then choice.value.0 else Neg(choice.value.0);
      BestDecides(base.formula, base.G(), base.decisionLevel, l);
      base.Decide(l);
      return None;
    }
  }

  lemma BestDecides(f: seq<Clause>, g: Graph, lv: nat, l: Lit)
    requires Picks(f, g.value, l)
    ensures Decides(DlisRules, f, g, lv, Searched(f, Extend(g, l, lv + 1, None), lv + 1))
  {
    hide Picks;
    assert Branches(DlisRules, f, g.value, l);
  }

  lemma NextIsResolvent(c: Clause, g: Graph, lv: nat)
    requires Resolvable(c, g, lv)
    ensures var lits := OnLevel(c, g, lv);
      NextClause(c, g, lv) == ResolventInOrder(c, g.reason[Var(lits[|lits|-1])].value, lits[|lits|-1])
  {
  }

  /** On every formula the solver answers within `bound` stalled turns exactly if
      some run does, and exactly if no run has more of them. */
  method Answers(f: seq<Clause>, bound: nat) returns (answered: bool)
    ensures answered <==> AnswersWithin(DlisRules, f, bound)
    ensures answered <==> StallsAtMost(DlisRules, Start(f), bound)
  {
    hide IsRun, Stalls, StallsAtMost;
    var solver := new DlisSolver(f);
    var verdict: Verdict;
    ghost var run: seq<Search>;
    verdict, run := solver.Solve(bound);
    answered := !verdict.Unfinished?;
    if answered {
      RunAnswers(DlisRules, f, run, bound);
    }
    AnswerMeansBounded(DlisRules, f, bound);
  }

  /** On an unsatisfiable formula of four clauses no patience is enough. */
  method FourClauses(patience: nat) returns (verdict: Verdict)
    ensures verdict.Unfinished? && Unsat(DlisLoop.FOUR)
  {
    DlisLoop.FourIsUnsat();
    var solver := new DlisSolver(DlisLoop.FOUR);
    ghost var run: seq<Search>;
    verdict, run := solver.Solve(patience);
    DlisLoop.NeverAnswers(run, |run| - 1);
  }
}

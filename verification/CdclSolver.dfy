/** The CDCL solver of dpll_cdcl_sat_solver.py: unit propagation over the whole
    clause list, first-UIP learning, backjumping.  Its refusals are right, its
    models are right exactly without empty clauses, and it ends on formulas whose
    clauses are not empty and repeat no literal. */
module CdclSolver {
  import opened Logic
  import opened ImplicationGraph
  import opened SearchState
  import opened SearchRank
  import opened SearchSteps
  import opened SearchRuns
  import opened StallLoop
  import opened TrailOrder

  datatype Entry = Entry(variable: Variable, value: bool, level: nat)

  function LitOf(e: Entry): Lit {
    if e.value then e.variable else 0 - e.variable
  }

  function TrailOf(s: seq<Entry>): seq<Lit> {
    seq(|s|, i requires 0 <= i < |s| => LitOf(s[i]))
  }

  /** `(clause1 - {pivot}) + (clause2 - {-pivot})`, in order of first occurrence. */
  method Resolve(clause1: Clause, clause2: Clause, pivot: Lit) returns (resolvent: Clause)
    ensures Lits(resolvent) == Resolvent(Lits(clause1), pivot, Lits(clause2))
    ensures NoDuplicates(resolvent) && resolvent == ResolventInOrder(clause1, clause2, pivot)
    ensures InOrder(resolvent, clause1, clause2, pivot)
  {
    hide InOrder;
    ResolventLits(clause1, clause2, pivot);
    ResolventOrder(clause1, clause2, pivot);
    resolvent := [];
    for i := 0 to |clause1|
      invariant Merged(resolvent, clause1[i..], pivot) == Merged([], clause1, pivot)
    {
      var lit := clause1[i];
      assert clause1[i..][0] == lit && clause1[i..][1..] == clause1[i+1..];
      if lit != pivot && lit !in resolvent {
        resolvent := resolvent + [lit];
      }
    }
    for i := 0 to |clause2|
      invariant Merged(resolvent, clause2[i..], Neg(pivot)) == ResolventInOrder(clause1, clause2, pivot)
    {
      var lit := clause2[i];
      assert clause2[i..][0] == lit && clause2[i..][1..] == clause2[i+1..];
      if lit != Neg(pivot) && lit !in resolvent {
        resolvent := resolvent + [lit];
      }
    }
  }

  class SATSolver {
    var formula: seq<Clause>
    var assignments: map<int, bool>
    var levels: map<int, nat>
    var reasons: map<int, Option<Clause>>
    var decisionLevel: nat
    var decisionStack: seq<Entry>
    /** The order in which a set of the variables is visited. */
    const order: seq<Variable>
    ghost var position: map<int, nat>
    ghost var original: seq<Clause>

    ghost function G(): Graph
      reads this
    {
      Graph(TrailOf(decisionStack), assignments, levels, reasons, position)
    }

    ghost predicate StackLevels()
      reads this`decisionStack, this`levels
    {
      forall i :: 0 <= i < |decisionStack| ==>
        decisionStack[i].variable in levels && levels[decisionStack[i].variable] == decisionStack[i].level
    }

    /** The formula is the input and clauses it implies, over its variables. */
    ghost predicate Conservative()
      reads this`formula, this`original
    {
      && original <= formula
      && (NonEmpty(original) <==> NonEmpty(formula))
      && VarsOf(formula) == VarsOf(original)
      && forall c :: c in formula ==> Implies(original, c)
    }

    ghost predicate Valid()
      reads this
    {
      StackLevels() && Conservative() && Searching(formula, G(), decisionLevel)
    }

    constructor (formula: seq<Clause>, order: seq<Variable>)
      ensures Valid() && this.formula == original == formula && this.order == order
      ensures decisionLevel == 0 && G() == Graph([], map[], map[], map[], map[])
    {
      this.formula := formula;
      this.order := order;
      this.original := formula;
      this.assignments := map[];
      this.levels := map[];
      this.reasons := map[];
      this.decisionLevel := 0;
      this.decisionStack := [];
      this.position := map[];
    }

    function LiteralValue(literal: Lit): Option<bool>
      reads this
    {
      var v := Var(literal);
      if v !in assignments then None
      else if literal > 0 then Some(assignments[v]) else Some(!assignments[v])
    }

    method CheckClause(clause: Clause) returns (status: Status)
      ensures status.Satisfied? <==> exists l :: l in clause && TrueIn(l, assignments)
      ensures status.Conflict? <==> forall l :: l in clause ==> FalseIn(l, assignments)
      ensures status.Unit? ==> UnitWith(clause, assignments, status.literal)
      ensures status.Satisfied? || status.Undefined? <==> Settled(clause, assignments)
      ensures status == StatusOf(clause, assignments)
    {
      var unassignedCount := 0;
      var unitLiteral: Option<Lit> := None;
      ghost var last := 0;
      for i := 0 to |clause|
        invariant forall k :: 0 <= k < i ==> !TrueIn(clause[k], assignments)
        invariant unassignedCount == 0 ==> forall k :: 0 <= k < i ==> FalseIn(clause[k], assignments)
        invariant unassignedCount >= 1 ==>
          0 <= last < i && unitLiteral == Some(clause[last]) && Var(clause[last]) !in assignments
        invariant unassignedCount == 1 ==>
          forall k :: 0 <= k < i && k != last ==> FalseIn(clause[k], assignments)
        invariant unassignedCount >= 2 ==>
          exists k :: 0 <= k < last && Var(clause[k]) !in assignments
        invariant unassignedCount == |OpenLits(clause[..i], assignments)|
        invariant unassignedCount == 1 ==> unitLiteral == Some(OpenLits(clause[..i], assignments)[0])
      {
        assert clause[..i+1][..i] == clause[..i];
        var val := LiteralValue(clause[i]);
        if val == Some(true) {
          assert TrueIn(clause[i], assignments);
          return Satisfied;
        }
        if val == None {
          unassignedCount := unassignedCount + 1;
          unitLiteral := Some(clause[i]);
          last := i;
        }
      }
      assert clause[..|clause|] == clause;
      assert forall l :: l in clause ==> !TrueIn(l, assignments);
      if unassignedCount == 0 {
        return Conflict;
      }
      assert clause[last] in clause && !FalseIn(clause[last], assignments);
      if unassignedCount == 1 {
        return Unit(unitLiteral.value);
      }
      return Undefined;
    }

    /** Assign the variable of `literal` on the current level. */
    method Assign(literal: Lit, reason: Option<Clause>)
      requires Indexed(G()) && StackLevels() && Var(literal) !in levels
      modifies this`assignments, this`levels, this`reasons, this`decisionStack, this`position
      ensures G() == Extend(old(G()), literal, decisionLevel, reason)
      ensures StackLevels() && |decisionStack| == |old(decisionStack)| + 1
    {
      var v := Var(literal);
      assignments := assignments[v := literal > 0];
      levels := levels[v := decisionLevel];
      reasons := reasons[v := reason];
      position := position[v := |decisionStack|];
      decisionStack := decisionStack + [Entry(v, literal > 0, decisionLevel)];
      assert TrailOf(decisionStack) == old(TrailOf(decisionStack)) + [literal];
      assert forall i :: 0 <= i < |decisionStack| - 1 ==> old(TrailOf(decisionStack))[i] == LitOf(decisionStack[i]);
    }

    /** Propagation only adds assignments, all on the current level. */
    twostate predicate Propagated()
      reads this
    {
      && formula == old(formula) && original == old(original) && decisionLevel == old(decisionLevel)
      && Grows(old(levels), levels, decisionLevel)
      && (if old(levels.Keys) == levels.Keys then G() == old(G())
          else |decisionStack| > old(|decisionStack|))
    }

    /** One pass over the clause list. */
    method PropagateOnce() returns (conflict: Option<Clause>, changed: bool)
      requires Valid() && Quiet(formula, G(), decisionLevel) && levels.Keys <= VarsOf(formula)
      modifies this`assignments, this`levels, this`reasons, this`decisionStack, this`position
      ensures Valid() && Quiet(formula, G(), decisionLevel) && levels.Keys <= VarsOf(formula)
      ensures Propagated()
      ensures if changed then old(levels.Keys) < levels.Keys else old(levels.Keys) == levels.Keys
      ensures conflict.None? && !changed ==> forall c :: c in formula ==> Settled(c, assignments)
      ensures Pass(old(formula), 0, old(G()), old(decisionLevel), false) == Propagation(G(), conflict, changed)
    {
      hide Searching, Quiet, Conservative, StackLevels, UnitWith, VarsOf, StatusOf, Falsified, Settled;
      changed := false;
      ghost var goal := Pass(formula, 0, G(), decisionLevel, false);
      for i := 0 to |formula|
        invariant Valid() && Quiet(formula, G(), decisionLevel) && Propagated()
        invariant goal == Pass(formula, i, G(), decisionLevel, changed)
        invariant levels.Keys <= VarsOf(formula)
        invariant if changed then old(levels.Keys) < levels.Keys else old(levels.Keys) == levels.Keys
        invariant !changed ==> forall k :: 0 <= k < i ==> Settled(formula[k], assignments)
      {
        var clause := formula[i];
        var status := CheckClause(clause);
        if status == Conflict {
          return Some(clause), changed;
        } else if status.Unit? {
          UnitStatus(clause, assignments);
          if Var(status.literal) !in assignments {
            PropagateUnit(clause, status.literal);
            changed := true;
          }
        }
      }
      return None, changed;
    }

    /** Passes until one meets a conflict or assigns nothing. */
    method UnitPropagate() returns (conflict: Option<Clause>)
      requires Valid() && Quiet(formula, G(), decisionLevel) && levels.Keys <= VarsOf(formula)
      modifies this`assignments, this`levels, this`reasons, this`decisionStack, this`position
      ensures Valid() && Quiet(formula, G(), decisionLevel)
      ensures Propagated()
      ensures conflict.Some? ==> conflict.value in formula && Falsified(Lits(conflict.value), G())
      ensures conflict.None? ==> forall c :: c in formula ==> Settled(c, assignments)
      ensures var p := Propagate(old(formula), old(G()), old(decisionLevel));
        p.g == G() && p.conflict == conflict
    {
      hide Searching, Quiet, Conservative, StackLevels, VarsOf, Falsified, Settled, Pass;
      ghost var goal := Propagate(formula, G(), decisionLevel);
      var changed := true;
      while changed
        invariant Valid() && Quiet(formula, G(), decisionLevel) && Propagated()
        invariant changed ==> goal == Propagate(formula, G(), decisionLevel)
        invariant !changed ==> goal.g == G() && goal.conflict == None
        invariant !changed ==> forall c :: c in formula ==> Settled(c, assignments)
        invariant levels.Keys <= VarsOf(formula)
        decreases VarsOf(formula) - levels.Keys, changed
      {
        assert goal == Propagate(formula, G(), decisionLevel);
        conflict, changed := PropagateOnce();
        if conflict != None {
          return conflict;
        }
      }
      return None;
    }

    /** The assignment a unit clause forces. */
    method PropagateUnit(clause: Clause, literal: Lit)
      requires Valid() && Quiet(formula, G(), decisionLevel) && levels.Keys <= VarsOf(formula)
      requires clause in formula && UnitWith(clause, assignments, literal)
      modifies this`assignments, this`levels, this`reasons, this`decisionStack, this`position
      ensures Valid() && Quiet(formula, G(), decisionLevel)
      ensures Propagated()
      ensures old(levels.Keys) < levels.Keys <= VarsOf(formula)
      ensures G() == Extend(old(G()), literal, decisionLevel, Some(clause))
    {
      hide Searching, Quiet, Indexed, Conservative, VarsOf, UnitWith;
      UnitKeeps(formula, G(), decisionLevel, clause, literal);
      Assign(literal, Some(clause));
    }

    ghost predicate Visits(vars: set<int>) {
      forall v :: v in order <==> v in vars
    }

    /** The first unassigned variable of the formula in the visiting order. */
    method PickBranchingVariable() returns (choice: Option<Variable>)
      requires Visits(VarsOf(formula))
      ensures choice.Some? ==> choice.value in VarsOf(formula) && FirstOpen(order, assignments, choice.value)
      ensures choice.None? ==> VarsOf(formula) <= assignments.Keys
    {
      var variables: set<Variable> := {};
      for i := 0 to |formula|
        invariant variables == VarsOf(formula[..i])
      {
        var clause := formula[i];
        for j := 0 to |clause|
          invariant variables == VarsOf(formula[..i]) + ClauseVars(clause[..j])
        {
          variables := variables + {Var(clause[j])};
          ClauseVarsOfPrefix(clause, j);
        }
        assert clause[..|clause|] == clause;
        VarsOfPrefix(formula, i);
      }
      assert formula[..|formula|] == formula;
      assert Visits(variables);
      for i := 0 to |order|
        invariant forall j :: 0 <= j < i ==> order[j] in assignments
      {
        if order[i] !in assignments {
          return Some(order[i]);
        }
      }
      return None;
    }

    /** The literals of `clause` on the current level. */
    method CurrentLevelLits(clause: Clause) returns (lits: Clause)
      ensures lits == OnLevel(clause, G(), decisionLevel)
    {
      lits := [];
      for i := 0 to |clause|
        invariant lits == OnLevel(clause[..i], G(), decisionLevel)
      {
        assert clause[..i+1][..i] == clause[..i];
        if Var(clause[i]) in levels && levels[Var(clause[i])] == decisionLevel {
          lits := lits + [clause[i]];
        }
      }
      assert clause[..|clause|] == clause;
    }

    /** The most recently assigned of `lits`, with its stack position. */
    method LatestLiteral(lits: Clause) returns (last: Option<Lit>, ghost at: nat)
      ensures last.Some? ==>
        && at < |decisionStack| && decisionStack[at].level == decisionLevel
        && last.value in lits && Var(last.value) == decisionStack[at].variable
      ensures last.None? ==> at == 0
      ensures forall i, l ::
        (last.Some? ==> at < i) && 0 <= i < |decisionStack| && l in lits && decisionStack[i].level == decisionLevel
        ==> Var(l) != decisionStack[i].variable
    {
      at := 0;
      var k := |decisionStack|;
      while k > 0
        invariant 0 <= k <= |decisionStack|
        invariant forall i, l ::
          k <= i < |decisionStack| && l in lits && decisionStack[i].level == decisionLevel
          ==> Var(l) != decisionStack[i].variable
      {
        k := k - 1;
        if decisionStack[k].level != decisionLevel {
          continue;
        }
        for j := 0 to |lits|
          invariant forall i :: 0 <= i < j ==> Var(lits[i]) != decisionStack[k].variable
        {
          if Var(lits[j]) == decisionStack[k].variable {
            return Some(lits[j]), k;
          }
        }
      }
      return None, 0;
    }

    lemma LatestFound(learned: Clause, lits: Clause, last: Option<Lit>, at: nat)
      requires Indexed(G()) && StackLevels()
      requires Falsified(Lits(learned), G()) && lits != [] && lits == OnLevel(learned, G(), decisionLevel)
      requires last.Some? ==>
        at < |decisionStack| && last.value in lits && Var(last.value) == decisionStack[at].variable
      requires forall i, l ::
        (last.Some? ==> at < i) && 0 <= i < |decisionStack| && l in lits && decisionStack[i].level == decisionLevel
        ==> Var(l) != decisionStack[i].variable
      ensures last.Some? && at < |decisionStack|
      ensures var g, c := G(), Lits(learned);
              && last.value == Neg(g.trail[at])
              && last.value in c && AtLevel(g.trail[at], g, decisionLevel)
              && forall i :: at < i < |decisionStack| ==>
                   !(Neg(g.trail[i]) in c && AtLevel(g.trail[i], g, decisionLevel))
    {
      var g, c := G(), Lits(learned);
      OnLevelMembers(learned, g, decisionLevel);
      var x := lits[0];
      assert x in lits && decisionStack[g.pos[Var(x)]].variable == Var(g.trail[g.pos[Var(x)]]);
      assert last.value in c && Var(g.trail[at]) == Var(last.value);
      forall i | at < i < |decisionStack|
        ensures !(Neg(g.trail[i]) in c && AtLevel(g.trail[i], g, decisionLevel))
      {
        var l := Neg(g.trail[i]);
        assert l in c && AtLevel(l, g, decisionLevel) ==> l in lits;
      }
    }

    /** The level `conflict_analysis` returns with the learned clause. */
    method BackjumpLevel(learned: Clause) returns (backjumpLevel: nat)
      requires decisionLevel > 0
      requires forall l :: l in learned ==> Var(l) in levels && levels[Var(l)] <= decisionLevel
      ensures JumpLevel(learned, G(), decisionLevel, backjumpLevel)
    {
      ghost var g := G();
      backjumpLevel := 0;
      for i := 0 to |learned|
        invariant backjumpLevel < decisionLevel
        invariant forall j :: 0 <= j < i && !AtLevel(learned[j], g, decisionLevel) ==>
          AssignedUpTo(learned[j], g, backjumpLevel)
        invariant backjumpLevel > 0 ==> exists l :: l in learned && AtLevel(l, g, backjumpLevel)
      {
        var lvl := if Var(learned[i]) in levels then levels[Var(learned[i])] else 0;
        if lvl != decisionLevel && lvl > backjumpLevel {
          backjumpLevel := lvl;
          assert AtLevel(learned[i], g, backjumpLevel);
        }
      }
    }

    /** Resolve on the latest literal of the current level until one position
        is left there, or that literal is the decision, which `stopped` reports.
        Without repeated literals this is the reference first-UIP analysis. */
    method ConflictAnalysis(conflict: Clause) returns (learned: Clause, backjumpLevel: nat, stopped: bool)
      requires WellFormed(G()) && StackLevels() && decisionLevel > 0
      requires forall v :: v in levels ==> levels[v] <= decisionLevel
      requires Falsified(Lits(conflict), G())
      ensures learned == Learned(conflict, G(), decisionLevel, |decisionStack|)
      ensures JumpLevel(learned, G(), decisionLevel, backjumpLevel)
      ensures stopped <==> !SoleOn(learned, G(), decisionLevel)
      ensures NoDuplicates(conflict) ==> Lits(learned) == FirstUip(Lits(conflict), G(), decisionLevel, |decisionStack|)
    {
      hide WellFormed, FirstUip, AtMostOne, NoDuplicates, StackLevels, Before, SoleOn, Falsified, Resolvent, Learned,
           OnLevel, ResolventInOrder;
      WellFormedIndexed(G());
      learned, stopped := conflict, false;
      ghost var g, lv := G(), decisionLevel;
      ghost var k: nat := |decisionStack|;
      AllBefore(Lits(conflict), g, lv);
      while true
        invariant !stopped && k <= |decisionStack|
        invariant Learned(learned, g, lv, k) == Learned(conflict, g, lv, |decisionStack|)
        invariant Falsified(Lits(learned), g) && Before(Lits(learned), g, lv, k)
        decreases k
      {
        var lits := CurrentLevelLits(learned);
        OnLevelCount(learned, g, lv);
        if |lits| <= 1 {
          LearnedDone(learned, g, lv, k);
          break;
        }
        var last, at := LatestLiteral(lits);
        LatestFound(learned, lits, last, at);
        if last == None {
          assert false;
          break;
        }
        LatestIsNext(learned, g, lv, at, k);
        AnalysisStep(learned, g, lv, at);
        var reason := reasons[Var(last.value)];
        if reason == None {
          stopped := true;
          break;
        }
        learned := Resolve(learned, reason.value, last.value);
        k := at;
      }
      FalsifiedLevels(learned);
      backjumpLevel := BackjumpLevel(learned);
      if NoDuplicates(conflict) {
        LearnedIsFirstUip(conflict, g, lv, |decisionStack|);
      }
    }

    lemma FalsifiedLevels(u: Clause)
      requires Indexed(G()) && Falsified(Lits(u), G())
      requires forall v :: v in levels ==> levels[v] <= decisionLevel
      ensures forall l :: l in u ==> Var(l) in levels && levels[Var(l)] <= decisionLevel
    {
      assert forall l :: l in u ==> l in Lits(u);
    }

    lemma SortedStack()
      requires Indexed(G()) && StackLevels() && Monotone(G())
      ensures forall i, j :: 0 <= i < j < |decisionStack| ==> decisionStack[i].level <= decisionStack[j].level
    {
      forall i, j | 0 <= i < j < |decisionStack|
        ensures decisionStack[i].level <= decisionStack[j].level
      {
        assert G().trail[i] == LitOf(decisionStack[i]) && G().trail[j] == LitOf(decisionStack[j]);
      }
    }

    /** Undo the assignments above `level`. */
    method Backjump(level: nat) returns (ghost n: nat)
      requires Indexed(G()) && StackLevels() && Monotone(G())
      modifies this`assignments, this`levels, this`reasons, this`decisionStack, this`position
      ensures Indexed(old(G())) && CutsAt(old(G()), level, n) && G() == Cut(old(G()), level, n)
      ensures StackLevels()
    {
      hide Indexed, Monotone, TrailOf, Without;
      var newStack: seq<Entry> := [];
      ghost var removed: set<int> := {};
      ghost var g := G();
      n := 0;
      SortedStack();
      NothingRemoved(g);
      for i := 0 to |decisionStack|
        invariant decisionStack == old(decisionStack)
        invariant n <= i && newStack == decisionStack[..n]
        invariant forall j :: 0 <= j < i ==> (j < n <==> decisionStack[j].level <= level)
        invariant forall v :: v in removed <==> exists j :: n <= j < i && decisionStack[j].variable == v
        invariant Without(g, removed)
      {
        var entry := decisionStack[i];
        assert n < i ==> decisionStack[n].level <= entry.level;
        if entry.level > level {
          Unassign(entry.variable, g, removed);
          removed := removed + {entry.variable};
        } else {
          newStack := newStack + [entry];
          n := n + 1;
        }
      }
      decisionStack := newStack;
      AllRemoved(g, removed);
      CutByRemoval(g, old(decisionStack), removed, level, n);
    }

    /** The maps of `g`, short of the variables in `removed`. */
    ghost predicate Without(g: Graph, removed: set<int>)
      reads this`assignments, this`levels, this`reasons, this`position
    {
      && assignments == g.value - removed && levels == g.level - removed
      && reasons == g.reason - removed && position == g.pos - removed
    }

    lemma NothingRemoved(g: Graph)
      requires g == G()
      ensures Without(g, {})
    {
    }

    lemma AllRemoved(g: Graph, removed: set<int>)
      requires Without(g, removed)
      ensures G() ==
        Graph(TrailOf(decisionStack), g.value - removed, g.level - removed, g.reason - removed, g.pos - removed)
    {
    }

    method Unassign(v: Variable, ghost g: Graph, ghost removed: set<int>)
      requires Without(g, removed)
      modifies this`assignments, this`levels, this`reasons, this`position
      ensures Without(g, removed + {v})
    {
      RemoveOne(g.value, removed, v);
      RemoveOne(g.level, removed, v);
      RemoveOne(g.reason, removed, v);
      RemoveOne(g.pos, removed, v);
      if v in assignments {
        assignments := assignments - {v};
      }
      if v in levels {
        levels := levels - {v};
      }
      if v in reasons {
        reasons := reasons - {v};
      }
      position := position - {v};
    }

    ghost function Progress(pending: bool): nat
      reads this
    {
      Rank(levels, if pending then decisionLevel else -1, 0, |VarsOf(original)| + 1)
    }

    ghost function State(): Search
      reads this
    {
      Searched(formula, G(), decisionLevel)
    }

    ghost function Plain(): Rules {
      PlainRules(order)
    }

    /** Every turn follows the relation.  A refusal is right; a model is right
        exactly if no clause is empty.  The loop answers within `patience` learning
        turns that give propagation nothing to do exactly if its run has no more of
        them; if no clause is empty or repeats a literal it has none. */
    method Solve(patience: nat) returns (verdict: Verdict, ghost run: seq<Search>)
      requires Valid() && decisionLevel == 0 && Visits(VarsOf(original))
      modifies this
      ensures original == old(original)
      ensures verdict.Unsatisfiable? ==> Unsat(original)
      ensures verdict.Satisfiable? ==> verdict.model.Keys == VarsOf(original)
      ensures verdict.Satisfiable? ==> (SatAll(original, ModelOf(verdict.model)) <==> NonEmpty(original))
      ensures IsRun(Plain(), run) && run[0] == old(State())
      ensures verdict.Unsatisfiable? ==> run[|run|-1] == Answered(None)
      ensures verdict.Satisfiable? ==> run[|run|-1] == Answered(Some(verdict.model))
      ensures if verdict.Unfinished? then Stalls(run) == patience + 1 else Stalls(run) <= patience
      ensures !verdict.Unfinished? <==> StallsAtMost(Plain(), old(State()), patience)
      ensures Proper(old(formula)) ==> !verdict.Unfinished? && Stalls(run) == 0
    {
      hide Searching, Quiet, PendingIn, Settled, Falsified, Rank, RankLimit, Implies, Turn, Stalled, IsRun,
           Stalls, Propagate, Learns, Decides, WellFormed, Sound, VarsOf, Unsat, SatAll, ModelOf, Grows,
           StallsAtMost, Valid, Proper, LearnedBy, Conservative, StackLevels, FirstOpen, Limit, SoleOn, Visits, Indexed,
           NonEmpty, Idle;
      ghost var f0 := formula;
      var pending := false;
      var left := patience;
      ghost var owes := false;
      run := [State()];
      SingleRun(Plain(), State());
      NothingBelow(formula, G());
      while true
        invariant original == old(original)
        invariant Valid() && Quiet(formula, G(), decisionLevel)
        invariant pending && Proper(f0) ==> PendingIn(formula, G(), decisionLevel)
        invariant IsRun(Plain(), run) && run != [] && run[0] == old(State()) && run[|run|-1] == State()
        invariant Stalls(run) == patience - left + (if owes then 1 else 0) && 0 <= left <= patience
        invariant owes <==> pending && Idle(State())
        invariant Proper(f0) ==> Proper(formula) && left == patience
        decreases left, Limit() - Progress(pending)
      {
        ghost var s := State();
        ProgressBounded(pending);
        InScope();
        var size := |decisionStack|;
        var conflict := UnitPropagate();
        SizesTell(s, size);
        PropagationRaises(s.g, pending && |decisionStack| > size);
        if Proper(f0) && pending {
          PendingAssigns(s.g, conflict);
        }
        if pending && |decisionStack| == size {
          if left == 0 {
            NotFinished(Plain(), run, patience);
            return Unfinished, run;
          }
          left := left - 1;
        }
        if conflict.Some? && conflict.value != [] {
          if decisionLevel == 0 {
            ConflictRefutes(conflict.value);
            RefutedRun(Plain(), run, s, patience);
            run := run + [Answered(None)];
            return Unsatisfiable, run;
          }
          Learn(conflict.value);
          LearningRun(Plain(), run, s, State());
          run := run + [State()];
          pending := true;
          owes := Idle(State());
        } else {
          NotEmptyConflict(conflict);
          var model := DecideNext();
          if model.Some? {
            AssignmentAnswers();
            AnsweringRun(Plain(), run, s, model.value, patience);
            run := run + [Answered(model)];
            return Satisfiable(model.value), run;
          }
          DecidingRun(Plain(), run, s, State());
          run := run + [State()];
          pending := false;
          owes := false;
        }
      }
    }

    /** Whether propagation has assigned anything shows in the size of the stack. */
    lemma SizesTell(s: Search, size: nat)
      requires s.Searched? && |s.g.trail| == size && Searching(s.f, s.g, s.lv)
      requires Propagate(s.f, s.g, s.lv).g == G()
      requires if s.g.level.Keys == levels.Keys then G() == s.g else |decisionStack| > size
      ensures |decisionStack| == size <==> Idle(s)
      ensures |decisionStack| > size ==> s.g.level.Keys != levels.Keys
    {
      assert |G().trail| == |decisionStack|;
    }

    lemma NotEmptyConflict(conflict: Option<Clause>)
      requires conflict.Some? ==> conflict.value == [] && conflict.value in formula
      requires conflict.None? ==> forall c :: c in formula ==> Settled(c, assignments)
      ensures NonEmpty(formula) ==> forall c :: c in formula ==> Settled(c, assignments)
    {
    }

    /** Answer with the assignment when no variable is left; decide otherwise. */
    method DecideNext() returns (model: Option<map<int, bool>>)
      requires Valid() && Quiet(formula, G(), decisionLevel) && Visits(VarsOf(original))
      requires NonEmpty(formula) ==> forall c :: c in formula ==> Settled(c, assignments)
      modifies this`assignments, this`levels, this`reasons, this`decisionStack, this`position, this`decisionLevel
      ensures model.Some? <==> VarsOf(formula) <= old(assignments.Keys)
      ensures model.Some? ==> State() == old(State()) && model.value == assignments && Valid()
      ensures model.None? ==> Valid() && Quiet(formula, G(), decisionLevel)
      ensures model.None? ==> old(Progress(false)) < Progress(false)
      ensures model.None? ==> Decides(Plain(), formula, old(G()), old(decisionLevel), State())
    {
      hide Searching, Quiet, Settled, Rank, Implies, VarsOf, FirstOpen, Decides, Visits;
      InScope();
      ghost var g, lv := G(), decisionLevel;
      var choice := PickBranchingVariable();
      if choice == None {
        return Some(assignments);
      }
      NotAssigned(choice.value);
      Decide(choice.value);
      DecidesNext(formula, g, lv, choice.value);
      return None;
    }

    lemma NotAssigned(v: Variable)
      requires FirstOpen(order, assignments, v)
      ensures v !in assignments
    {
    }

    lemma DecidesNext(f: seq<Clause>, g: Graph, lv: nat, l: Lit)
      requires FirstOpen(order, g.value, l)
      ensures Decides(Plain(), f, g, lv, Searched(f, Extend(g, l, lv + 1, None), lv + 1))
    {
      hide FirstOpen;
      assert Branches(Plain(), f, g.value, l);
    }

    ghost function Limit(): nat
      reads this`original
    {
      RankLimit(VarsOf(original))
    }

    lemma ProgressBounded(pending: bool)
      requires Valid()
      ensures Progress(pending) < Limit()
    {
      RankBelowLimit(levels, if pending then decisionLevel else -1, VarsOf(original));
    }

    lemma InScope()
      requires Valid()
      ensures levels.Keys <= VarsOf(formula) == VarsOf(original) && Searching(formula, G(), decisionLevel)
    {
    }

    lemma PropagationRaises(g: Graph, more: bool)
      requires Valid() && Grows(g.level, levels, decisionLevel)
      requires more ==> g.level.Keys != levels.Keys
      ensures Rank(g.level, if more then decisionLevel else -1, 0, |VarsOf(original)| + 1) <= Progress(false)
    {
      hide Searching, Rank, Implies;
      RankAfterPropagation(g.level, levels, decisionLevel, more, |VarsOf(original)| + 1);
    }

    lemma PendingAssigns(g: Graph, conflict: Option<Clause>)
      requires Searching(formula, g, decisionLevel) && PendingIn(formula, g, decisionLevel)
      requires g.level.Keys == levels.Keys ==> assignments == g.value
      requires conflict.Some? ==> conflict.value in formula && Falsified(Lits(conflict.value), G())
      requires conflict.None? ==> forall c :: c in formula ==> Settled(c, assignments)
      ensures g.level.Keys != levels.Keys
    {
      hide Searching;
      SearchingDomains(formula, g, decisionLevel);
      PendingProgress(formula, g, G(), decisionLevel, conflict);
    }

    lemma ConflictRefutes(conflict: Clause)
      requires Valid() && decisionLevel == 0
      requires conflict in formula && Falsified(Lits(conflict), G())
      ensures Unsat(original)
    {
      RootConflict(formula, G(), conflict);
      forall m: Model
        ensures !SatAll(original, m)
      {
        assert forall c :: c in formula && SatAll(original, m) ==> SatClause(c, m);
        assert SatAll(original, m) ==> SatAll(formula, m);
      }
    }

    lemma AssignmentAnswers()
      requires Valid() && VarsOf(formula) <= assignments.Keys
      requires NonEmpty(formula) ==> forall c :: c in formula ==> Settled(c, assignments)
      ensures assignments.Keys == VarsOf(original)
      ensures SatAll(original, ModelOf(assignments)) <==> NonEmpty(original)
    {
      hide Searching, Implies, Settled, VarsOf, ModelOf;
      SearchingDomains(formula, G(), decisionLevel);
      if NonEmpty(original) {
        forall c | c in original
          ensures SatClause(c, ModelOf(assignments))
        {
          assert c in formula;
          SettledClause(formula, c, assignments);
        }
      } else {
        EmptyUnsatisfied(original, ModelOf(assignments));
      }
    }

    /** The conflict branch of the main loop: append the learned clause to the
        formula and undo the assignments above its backjump level. */
    method Learn(conflict: Clause)
      requires Valid() && Quiet(formula, G(), decisionLevel) && decisionLevel > 0
      requires conflict in formula && Falsified(Lits(conflict), G())
      modifies this
      ensures original == old(original)
      ensures Valid() && Quiet(formula, G(), decisionLevel) && decisionLevel < old(decisionLevel)
      ensures Learns(Plain(), old(formula), old(G()), old(decisionLevel), conflict, State())
      ensures old(Progress(false)) < Progress(true)
      ensures Proper(old(formula)) ==> Proper(formula) && PendingIn(formula, G(), decisionLevel)
    {
      hide Searching, Quiet, Falsified, FirstUip, Reaches, PendingIn, Rank, Monotone, CutsAt, WellFormed, Implies,
           NoDuplicates, SoleOn, JumpLevel, VarsOf, ClauseVars, Learned, Learns, Proper, NonEmpty;
      ghost var g, f, lv := G(), formula, decisionLevel;
      SearchingParts(f, g, lv);
      LearnedByCorrect(Plain(), f, g, lv, conflict);
      var learnedClause, backjumpLevel, stopped := ConflictAnalysis(conflict);
      formula := formula + [learnedClause];
      ghost var n := Backjump(backjumpLevel);
      decisionLevel := backjumpLevel;
      AfterJump(f, g, lv, learnedClause, backjumpLevel, n);
      StillConservative(original, f, learnedClause);
      OneMore(f, learnedClause);
      StillProper(f, conflict, learnedClause);
      JumpBelow(learnedClause, g, lv, backjumpLevel);
      JumpRaises(f, g, lv, backjumpLevel, VarsOf(original));
      JumpIsLearning(Plain(), f, g, lv, conflict, backjumpLevel, n, State());
    }

    /** The branching step of the main loop: open a decision level and assign
        the variable of `choice` there without a reason. */
    method Decide(choice: Lit)
      requires Valid() && Quiet(formula, G(), decisionLevel)
      requires NonEmpty(formula) ==> forall c :: c in formula ==> Settled(c, assignments)
      requires Var(choice) in VarsOf(formula) && Var(choice) !in assignments
      modifies this`assignments, this`levels, this`reasons, this`decisionStack, this`position, this`decisionLevel
      ensures Valid() && Quiet(formula, G(), decisionLevel)
      ensures old(Progress(false)) < Progress(false)
      ensures G() == Extend(old(G()), choice, decisionLevel, None) && decisionLevel == old(decisionLevel) + 1
    {
      hide Searching, Indexed, Quiet, Settled, Rank, StackLevels, Implies;
      SearchingDomains(formula, G(), decisionLevel);
      AfterDecision(formula, G(), decisionLevel, choice);
      DecisionRaises(formula, G(), decisionLevel, choice, VarsOf(original));
      decisionLevel := decisionLevel + 1;
      Assign(choice, None);
    }
  }

  lemma RemoveOne<T>(m: map<int, T>, removed: set<int>, v: int)
    ensures (m - removed) - {v} == m - (removed + {v})
    ensures v !in m - removed ==> m - removed == m - (removed + {v})
  {
  }

  lemma SearchingParts(f: seq<Clause>, g: Graph, lv: nat)
    requires Searching(f, g, lv)
    ensures WellFormed(g) && Indexed(g) && Monotone(g) && forall v :: v in g.level ==> g.level[v] <= lv
  {
  }

  lemma EmptyUnsatisfied(f: seq<Clause>, m: Model)
    requires !NonEmpty(f)
    ensures !SatAll(f, m)
  {
    var c :| c in f && c == [];
    assert !SatClause(c, m);
  }

  lemma StillProper(f: seq<Clause>, c: Clause, u: Clause)
    requires c in f && (NonEmpty(f) ==> u != []) && (NoDuplicates(c) ==> NoDuplicates(u))
    ensures Proper(f) ==> NonEmpty(f) && NoDuplicates(c) && Proper(f + [u])
  {
  }

  lemma JumpBelow(u: Clause, g: Graph, lv: nat, b: nat)
    requires JumpLevel(u, g, lv, b)
    ensures b < lv
  {
  }

  lemma StillConservative(original: seq<Clause>, f: seq<Clause>, u: Clause)
    requires Implies(f, u) && ClauseVars(u) <= VarsOf(f)
    requires original <= f && VarsOf(f) == VarsOf(original) && forall c :: c in f ==> Implies(original, c)
    ensures original <= f + [u] && VarsOf(f + [u]) == VarsOf(original)
    ensures forall c :: c in f + [u] ==> Implies(original, c)
  {
    VarsOfPrefix(f + [u], |f|);
    assert (f + [u])[..|f|] == f && (f + [u])[..|f| + 1] == f + [u];
    forall m: Model | SatAll(original, m)
      ensures SatClause(u, m)
    {
      assert forall c :: c in f ==> SatClause(c, m);
      assert SatAll(f, m);
    }
  }

  lemma JumpRaises(f: seq<Clause>, g: Graph, lv: nat, b: nat, vars: set<int>)
    requires Searching(f, g, lv) && VarsOf(f) == vars && b < lv
    ensures Rank(g.level, -1, 0, |vars| + 1) <
      Rank(map v | v in g.level && g.level[v] <= b :: g.level[v], b, 0, |vars| + 1)
  {
    hide Rank, Indexed, Justified, Monotone;
    forall k | 0 < k <= lv
      ensures Used(g.level, k)
    {
      assert Opened(g, k);
    }
    RankAfterJump(g.level, b, lv, vars);
  }

  lemma DecisionRaises(f: seq<Clause>, g: Graph, lv: nat, l: Lit, vars: set<int>)
    requires Searching(f, g, lv) && VarsOf(f) == vars && Var(l) in vars && Var(l) !in g.level
    requires Searching(f, Extend(g, l, lv + 1, None), lv + 1)
    ensures Rank(g.level, -1, 0, |vars| + 1) < Rank(g.level[Var(l) := lv + 1], -1, 0, |vars| + 1)
  {
    hide Rank, Indexed, Justified, Monotone;
    var up := lv + 1;
    var h := Extend(g, l, up, None);
    forall k | 0 < k <= up
      ensures Used(h.level, k)
    {
      assert Opened(h, k);
    }
    RankAfterDecision(g.level, Var(l), up, h.level, vars);
  }

  lemma NothingBelow(f: seq<Clause>, g: Graph)
    ensures Quiet(f, g, 0)
  {
  }

  /** Removing the variables of the entries from position `n` on is cutting. */
  lemma CutByRemoval(g: Graph, stack: seq<Entry>, removed: set<int>, level: nat, n: nat)
    requires Indexed(g) && g.trail == TrailOf(stack) && n <= |stack|
    requires forall i :: 0 <= i < |stack| ==>
      stack[i].variable in g.level && g.level[stack[i].variable] == stack[i].level
    requires forall j :: 0 <= j < |stack| ==> (j < n <==> stack[j].level <= level)
    requires forall v :: v in removed <==> exists j :: n <= j < |stack| && stack[j].variable == v
    ensures CutsAt(g, level, n) && TrailOf(stack[..n]) == g.trail[..n]
    ensures Cut(g, level, n) ==
      Graph(g.trail[..n], g.value - removed, g.level - removed, g.reason - removed, g.pos - removed)
  {
    forall v | v in g.level
      ensures v in removed <==> g.level[v] > level
    {
      assert stack[g.pos[v]].variable == Var(g.trail[g.pos[v]]);
      if v in removed {
        var j :| n <= j < |stack| && stack[j].variable == v;
      }
    }
    assert TrailOf(stack[..n]) == g.trail[..n];
    var h := Cut(g, level, n);
    assert h.value == g.value - removed;
    assert h.level == g.level - removed;
    assert h.reason == g.reason - removed;
    assert h.pos == g.pos - removed;
    forall i | 0 <= i < |g.trail|
      ensures i < n <==> g.level[Var(g.trail[i])] <= level
    {
      assert Var(g.trail[i]) == stack[i].variable;
    }
  }

  /** On every formula the solver answers within `bound` stalled turns exactly if
      some run does, and exactly if no run has more of them.  Without empty clauses
      that is when no turn stalls at all, and without repeated literals none does. */
  method Answers(f: seq<Clause>, order: seq<Variable>, bound: nat) returns (answered: bool)
    requires forall v :: v in order <==> v in VarsOf(f)
    ensures answered <==> AnswersWithin(PlainRules(order), f, bound)
    ensures answered <==> StallsAtMost(PlainRules(order), Start(f), bound)
    ensures NonEmpty(f) ==> (answered <==> StallsAtMost(PlainRules(order), Start(f), 0))
    ensures Proper(f) ==> answered
  {
    hide IsRun, Stalls, StallsAtMost, Proper, VarsOf, NonEmpty;
    var solver := new SATSolver(f, order);
    var verdict: Verdict;
    ghost var run: seq<Search>;
    verdict, run := solver.Solve(bound);
    answered := !verdict.Unfinished?;
    if answered {
      RunAnswers(PlainRules(order), f, run, bound);
    }
    AnswerMeansBounded(PlainRules(order), f, bound);
    if NonEmpty(f) {
      OneStallIsForever(order, f, bound);
    }
  }
}

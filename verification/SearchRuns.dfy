/** One turn of the main loop of the two Python solvers as a relation on search
    states, and the runs it has.  The solver objects are proved to follow it. */
module SearchRuns {
  import opened Logic
  import opened ImplicationGraph
  import opened SearchState
  import opened SearchSteps
  import opened TrailOrder
  import opened ClauseOrder
  import opened DlisChoice

  /** What the solvers differ in: conflict analysis and branching.  The plain
      solver branches in the order in which it visits a set of variables. */
  datatype Rules = PlainRules(order: seq<Variable>) | DlisRules

  datatype Search =
    | Searched(f: seq<Clause>, g: Graph, lv: nat)
    | Answered(result: Option<map<int, bool>>)

  datatype Verdict = Satisfiable(model: map<int, bool>) | Unsatisfiable | Unfinished

  ghost function LearnedBy(rules: Rules, conflict: Clause, g: Graph, lv: nat): Clause
    requires WellFormed(g) && Falsified(Lits(conflict), g)
  {
    match rules
    case PlainRules(_) => Learned(conflict, g, lv, |g.trail|)
    case DlisRules => Analyzed(conflict, g, lv)
  }

  /** The first unassigned variable of `order`. */
  ghost predicate FirstOpen(order: seq<Variable>, value: map<int, bool>, l: Lit) {
    exists i :: 0 <= i < |order| && order[i] == l && l !in value && forall j :: 0 <= j < i ==> order[j] in value
  }

  /** The decision is the first unassigned variable, or the best literal. */
  ghost predicate Branches(rules: Rules, f: seq<Clause>, value: map<int, bool>, l: Lit) {
    match rules
    case PlainRules(order) => FirstOpen(order, value, l)
    case DlisRules => Picks(f, value, l)
  }

  lemma BranchesOne(rules: Rules, f: seq<Clause>, value: map<int, bool>, l: Lit, k: Lit)
    requires Branches(rules, f, value, l) && Branches(rules, f, value, k)
    ensures l == k
  {
    hide Picks;
    match rules {
      case PlainRules(order) =>
        var i :| 0 <= i < |order| && order[i] == l && l !in value && forall j :: 0 <= j < i ==> order[j] in value;
        var a :| 0 <= a < |order| && order[a] == k && k !in value && forall j :: 0 <= j < a ==> order[j] in value;
        assert !(i < a) && !(a < i);
      case DlisRules =>
        PicksOne(f, value, l, k);
    }
  }

  /** The learned clause is appended and the search returns to `b`. */
  ghost predicate JumpsTo(f: seq<Clause>, g: Graph, lv: nat, u: Clause, b: nat, n: nat, t: Search)
    requires Indexed(g)
  {
    JumpLevel(u, g, lv, b) && CutsAt(g, b, n) && t == Searched(f + [u], Cut(g, b, n), b)
  }

  ghost predicate Learns(rules: Rules, f: seq<Clause>, g: Graph, lv: nat, conflict: Clause, t: Search) {
    && WellFormed(g) && Falsified(Lits(conflict), g)
    && exists b, n :: JumpsTo(f, g, lv, LearnedBy(rules, conflict, g, lv), b, n, t)
  }

  ghost predicate Decides(rules: Rules, f: seq<Clause>, g: Graph, lv: nat, t: Search) {
    exists l :: Branches(rules, f, g.value, l) && t == Searched(f, Extend(g, l, lv + 1, None), lv + 1)
  }

  /** What follows propagation; an empty conflict clause is taken for none. */
  ghost predicate Continues(rules: Rules, f: seq<Clause>, p: Propagation, lv: nat, t: Search) {
    if p.conflict.Some? && p.conflict.value != [] then
      if lv == 0 then t == Answered(None) else Learns(rules, f, p.g, lv, p.conflict.value, t)
    else if VarsOf(f) <= p.g.value.Keys then t == Answered(Some(p.g.value))
    else Decides(rules, f, p.g, lv, t)
  }

  ghost predicate Turn(rules: Rules, s: Search, t: Search) {
    && s.Searched? && Searching(s.f, s.g, s.lv)
    && Continues(rules, s.f, Propagate(s.f, s.g, s.lv), s.lv, t)
  }

  /** Propagation has nothing to do in this state. */
  ghost predicate Idle(s: Search) {
    s.Searched? && Searching(s.f, s.g, s.lv) && Propagate(s.f, s.g, s.lv).g == s.g
  }

  /** After this learning turn propagation has nothing to do. */
  ghost predicate Stalled(s: Search, t: Search) {
    s.Searched? && t.Searched? && t.lv < s.lv && Idle(t)
  }

  ghost predicate IsRun(rules: Rules, run: seq<Search>) {
    run != [] && forall i :: 0 <= i < |run| - 1 ==> Turn(rules, run[i], run[i+1])
  }

  /** How many learning turns of a run gave propagation nothing to do. */
  ghost function Stalls(run: seq<Search>): nat {
    if |run| <= 1 then 0
    else Stalls(run[..|run|-1]) + if Stalled(run[|run|-2], run[|run|-1]) then 1 else 0
  }

  lemma RunGrows(rules: Rules, run: seq<Search>, t: Search)
    requires IsRun(rules, run) && Turn(rules, run[|run|-1], t)
    ensures IsRun(rules, run + [t])
    ensures Stalls(run + [t]) == Stalls(run) + if Stalled(run[|run|-1], t) then 1 else 0
  {
    hide Turn, Stalled;
    var more := run + [t];
    assert more[..|more|-1] == run && more[|more|-2] == run[|run|-1];
    forall i | 0 <= i < |more| - 1
      ensures Turn(rules, more[i], more[i+1])
    {
      if i < |run| - 1 {
        assert more[i] == run[i] && more[i+1] == run[i+1];
      }
    }
  }

  // ----------------------------------------------------------------- learning

  /** What both solvers know of the clause their analysis ends with.  Without empty
      clauses it reaches the conflict level. */
  lemma LearnedByCorrect(rules: Rules, f: seq<Clause>, g: Graph, lv: nat, c: Clause)
    requires Searching(f, g, lv) && Quiet(f, g, lv) && lv > 0
    requires c in f && Falsified(Lits(c), g)
    ensures WellFormed(g)
    ensures var u := LearnedBy(rules, c, g, lv);
      && Falsified(Lits(u), g) && Implies(f, u) && ClauseVars(u) <= VarsOf(f)
      && (NonEmpty(f) ==> Reaches(Lits(u), g, lv))
      && (NoDuplicates(c) ==> NoDuplicates(u))
      && (NonEmpty(f) && NoDuplicates(c) && rules.PlainRules? ==> SoleOn(u, g, lv))
  {
    hide Opened, Monotone, QuietAt, Entails, Implies, Reaches, NoDuplicates, SoleOn, ReasonsFrom, ReasonsReach,
         Justified, ReasonsOnce, QuietBelow;
    ClauseEntailed(f, c);
    match rules {
      case PlainRules(_) =>
        LearnedSound(f, c, g, lv, |g.trail|);
        if NoDuplicates(c) {
          LearnedIsFirstUip(c, g, lv, |g.trail|);
        }
      case DlisRules =>
        AnalyzedSound(f, c, g, lv);
    }
    if NonEmpty(f) {
      LearnedByReaches(rules, f, g, lv, c);
    }
    var u := LearnedBy(rules, c, g, lv);
    LitsImplied(f, u);
    FalsifiedVars(u, g);
  }

  lemma LearnedByReaches(rules: Rules, f: seq<Clause>, g: Graph, lv: nat, c: Clause)
    requires Searching(f, g, lv) && QuietBelow(f, g, lv) && lv > 0
    requires c in f && Falsified(Lits(c), g)
    ensures var u := LearnedBy(rules, c, g, lv);
      && Reaches(Lits(u), g, lv) && (NoDuplicates(c) && rules.PlainRules? ==> SoleOn(u, g, lv))
  {
    hide Opened, Monotone, QuietAt, Reaches, NoDuplicates, SoleOn, ReasonsFrom, ReasonsReach, Justified, ReasonsOnce;
    var up := lv - 1;
    assert AllQuietAt(f, g, up);
    ConflictReaches(c, g, lv);
    ReasonsReachLevel(f, g, lv);
    match rules {
      case PlainRules(_) =>
        LearnedReaches(c, g, lv, |g.trail|);
        PlainWithoutRepeats(c, g, lv);
      case DlisRules =>
        AnalyzedReaches(c, g, lv);
    }
  }

  lemma FalsifiedVars(u: Clause, g: Graph)
    requires Falsified(Lits(u), g)
    ensures ClauseVars(u) <= g.value.Keys
  {
    assert forall l :: l in u ==> l in Lits(u);
  }

  lemma PlainWithoutRepeats(c: Clause, g: Graph, lv: nat)
    requires WellFormed(g) && ReasonsReach(g, lv) && Falsified(Lits(c), g) && Reaches(Lits(c), g, lv)
    ensures var u := Learned(c, g, lv, |g.trail|);
      NoDuplicates(c) ==> NoDuplicates(u) && SoleOn(u, g, lv)
  {
    hide Justified, Falsified, ReasonsReach, NoDuplicates, SoleOn;
    if NoDuplicates(c) {
      LearnedStops(c, g, lv, |g.trail|);
      LearnedIsFirstUip(c, g, lv, |g.trail|);
      if OnlyDecision(c, g, lv) {
        OneDecision(c, g, lv);
      }
    }
  }

  // -------------------------------------------------------------- determinism

  lemma JumpIsOne(f: seq<Clause>, g: Graph, lv: nat, u: Clause, b: nat, n: nat, c: nat, m: nat, t: Search, w: Search)
    requires Indexed(g) && JumpsTo(f, g, lv, u, b, n, t) && JumpsTo(f, g, lv, u, c, m, w)
    ensures t == w
  {
    if b > 0 {
      var l :| l in u && AtLevel(l, g, b);
      assert AssignedUpTo(l, g, c);
    }
    if c > 0 {
      var l :| l in u && AtLevel(l, g, c);
      assert AssignedUpTo(l, g, b);
    }
    assert b == c;
    assert n < |g.trail| ==> (n < m <==> g.level[Var(g.trail[n])] <= b);
    assert m < |g.trail| ==> (m < n <==> g.level[Var(g.trail[m])] <= b);
  }

  lemma LearnsOne(
    rules: Rules, f: seq<Clause>, g: Graph, lv: nat, conflict: Clause, b: nat, n: nat, t: Search, w: Search)
    requires WellFormed(g) && Falsified(Lits(conflict), g)
    requires JumpsTo(f, g, lv, LearnedBy(rules, conflict, g, lv), b, n, t)
    ensures Learns(rules, f, g, lv, conflict, w) <==> w == t
  {
    hide LearnedBy, JumpsTo, Falsified, Justified;
    var u := LearnedBy(rules, conflict, g, lv);
    if Learns(rules, f, g, lv, conflict, w) {
      var c, m :| JumpsTo(f, g, lv, u, c, m, w);
      JumpIsOne(f, g, lv, u, b, n, c, m, t, w);
    }
  }

  /** A state has at most one successor: both solvers are deterministic. */
  lemma TurnIsOne(rules: Rules, s: Search, t: Search, w: Search)
    requires Turn(rules, s, t) && Turn(rules, s, w)
    ensures t == w
  {
    hide Searching, Propagate, Justified, LearnedBy, Branches, JumpsTo, Falsified;
    var p := Propagate(s.f, s.g, s.lv);
    if p.conflict.Some? && p.conflict.value != [] {
      if s.lv > 0 {
        var u := LearnedBy(rules, p.conflict.value, p.g, s.lv);
        var b, n :| JumpsTo(s.f, p.g, s.lv, u, b, n, t);
        var c, m :| JumpsTo(s.f, p.g, s.lv, u, c, m, w);
        JumpIsOne(s.f, p.g, s.lv, u, b, n, c, m, t, w);
      }
    } else if !(VarsOf(s.f) <= p.g.value.Keys) {
      var l :| Branches(rules, s.f, p.g.value, l) && t == Searched(s.f, Extend(p.g, l, s.lv + 1, None), s.lv + 1);
      var k :| Branches(rules, s.f, p.g.value, k) && w == Searched(s.f, Extend(p.g, k, s.lv + 1, None), s.lv + 1);
      BranchesOne(rules, s.f, p.g.value, l, k);
    }
  }

  lemma {:induction false} RunsAgree(rules: Rules, run: seq<Search>, other: seq<Search>, i: nat)
    requires IsRun(rules, run) && IsRun(rules, other) && run[0] == other[0]
    requires i < |run| && i < |other|
    ensures run[i] == other[i]
  {
    if i > 0 {
      RunsAgree(rules, run, other, i - 1);
      TurnIsOne(rules, run[i-1], run[i], other[i]);
    }
  }

  // ------------------------------------------------------------ when it answers

  /** No run from `s` stalls more than `b` times. */
  ghost predicate StallsAtMost(rules: Rules, s: Search, b: nat) {
    forall run: seq<Search> :: IsRun(rules, run) && run[0] == s ==> Stalls(run) <= b
  }

  lemma {:induction false} PrefixStalls(run: seq<Search>, k: nat)
    requires 0 < k <= |run|
    ensures Stalls(run[..k]) <= Stalls(run)
    decreases |run|
  {
    hide Stalled;
    if k < |run| {
      var less := run[..|run|-1];
      PrefixStalls(less, k);
      assert less[..k] == run[..k];
    } else {
      assert run[..k] == run;
    }
  }

  /** A run that has reached an answer contains every other run. */
  lemma AnswerIsLast(rules: Rules, run: seq<Search>, other: seq<Search>)
    requires IsRun(rules, run) && IsRun(rules, other) && run[0] == other[0] && run[|run|-1].Answered?
    ensures other <= run
  {
    hide Turn;
    if |other| > |run| {
      RunsAgree(rules, run, other, |run| - 1);
      assert Turn(rules, other[|run|-1], other[|run|-1+1]);
      TurnFromSearch(rules, other[|run|-1], other[|run|]);
    }
    forall i | 0 <= i < |other|
      ensures i < |run| && other[i] == run[i]
    {
      RunsAgree(rules, run, other, i);
    }
  }

  lemma TurnFromSearch(rules: Rules, s: Search, t: Search)
    requires Turn(rules, s, t)
    ensures s.Searched?
  {
  }

  /** So an answer bounds the stalls of all runs. */
  lemma AnswerBounds(rules: Rules, run: seq<Search>)
    requires IsRun(rules, run) && run[|run|-1].Answered?
    ensures StallsAtMost(rules, run[0], Stalls(run))
  {
    hide Turn, Stalls;
    forall other: seq<Search> | IsRun(rules, other) && other[0] == run[0]
      ensures Stalls(other) <= Stalls(run)
    {
      AnswerIsLast(rules, run, other);
      PrefixStalls(run, |other|);
      assert run[..|other|] == other;
    }
  }

  lemma Finished(rules: Rules, run: seq<Search>, patience: nat)
    requires IsRun(rules, run) && run[|run|-1].Answered? && Stalls(run) <= patience
    ensures StallsAtMost(rules, run[0], patience)
  {
    hide IsRun, Stalls;
    AnswerBounds(rules, run);
  }

  lemma NotFinished(rules: Rules, run: seq<Search>, patience: nat)
    requires IsRun(rules, run) && Stalls(run) > patience
    ensures !StallsAtMost(rules, run[0], patience)
  {
    hide Stalls;
  }

  lemma SingleRun(rules: Rules, s: Search)
    ensures IsRun(rules, [s]) && Stalls([s]) == 0
  {
  }

  // ------------------------------------------------------- the kinds of turns

  lemma RefutedRun(rules: Rules, run: seq<Search>, s: Search, patience: nat)
    requires IsRun(rules, run) && run[|run|-1] == s && Stalls(run) <= patience
    requires s.Searched? && Searching(s.f, s.g, s.lv) && s.lv == 0
    requires var p := Propagate(s.f, s.g, s.lv); p.conflict.Some? && p.conflict.value != []
    ensures IsRun(rules, run + [Answered(None)]) && StallsAtMost(rules, run[0], patience)
    ensures Stalls(run + [Answered(None)]) == Stalls(run)
  {
    hide Searching, Stalls, StallsAtMost, Propagate;
    RunGrows(rules, run, Answered(None));
    Finished(rules, run + [Answered(None)], patience);
    assert (run + [Answered(None)])[0] == run[0];
  }

  lemma AnsweringRun(rules: Rules, run: seq<Search>, s: Search, value: map<int, bool>, patience: nat)
    requires IsRun(rules, run) && run[|run|-1] == s && Stalls(run) <= patience
    requires s.Searched? && Searching(s.f, s.g, s.lv)
    requires var p := Propagate(s.f, s.g, s.lv);
      (p.conflict.Some? ==> p.conflict.value == []) && VarsOf(s.f) <= p.g.value.Keys && p.g.value == value
    ensures IsRun(rules, run + [Answered(Some(value))]) && StallsAtMost(rules, run[0], patience)
    ensures Stalls(run + [Answered(Some(value))]) == Stalls(run)
  {
    hide Searching, Stalls, StallsAtMost, Propagate, VarsOf;
    RunGrows(rules, run, Answered(Some(value)));
    Finished(rules, run + [Answered(Some(value))], patience);
    assert (run + [Answered(Some(value))])[0] == run[0];
  }

  lemma LearningRun(rules: Rules, run: seq<Search>, s: Search, t: Search)
    requires IsRun(rules, run) && run[|run|-1] == s
    requires s.Searched? && Searching(s.f, s.g, s.lv) && s.lv > 0
    requires var p := Propagate(s.f, s.g, s.lv);
      && p.conflict.Some? && p.conflict.value != []
      && Learns(rules, s.f, p.g, s.lv, p.conflict.value, t)
    requires t.Searched? && t.lv < s.lv
    ensures IsRun(rules, run + [t])
    ensures Stalls(run + [t]) == Stalls(run) + if Idle(t) then 1 else 0
  {
    hide Searching, Stalls, Propagate, Learns, Idle;
    RunGrows(rules, run, t);
  }

  lemma DecidingRun(rules: Rules, run: seq<Search>, s: Search, t: Search)
    requires IsRun(rules, run) && run[|run|-1] == s
    requires s.Searched? && Searching(s.f, s.g, s.lv)
    requires var p := Propagate(s.f, s.g, s.lv);
      && (p.conflict.Some? ==> p.conflict.value == []) && !(VarsOf(s.f) <= p.g.value.Keys)
      && Decides(rules, s.f, p.g, s.lv, t)
    ensures IsRun(rules, run + [t]) && Stalls(run + [t]) == Stalls(run)
  {
    hide Searching, Stalls, Propagate, VarsOf;
    RunGrows(rules, run, t);
  }

  lemma JumpIsLearning(
    rules: Rules, f: seq<Clause>, g: Graph, lv: nat, conflict: Clause, b: nat, n: nat, t: Search)
    requires WellFormed(g) && Falsified(Lits(conflict), g)
    requires JumpsTo(f, g, lv, LearnedBy(rules, conflict, g, lv), b, n, t)
    ensures Learns(rules, f, g, lv, conflict, t)
  {
  }

  // ------------------------------------------------------------ runs of inputs

  ghost function Start(f: seq<Clause>): Search {
    Searched(f, Graph([], map[], map[], map[], map[]), 0)
  }

  ghost predicate AnswersWithin(rules: Rules, f: seq<Clause>, bound: nat) {
    exists run: seq<Search> ::
      IsRun(rules, run) && run[0] == Start(f) && run[|run|-1].Answered? && Stalls(run) <= bound
  }

  lemma RunAnswers(rules: Rules, f: seq<Clause>, run: seq<Search>, bound: nat)
    requires IsRun(rules, run) && run[0] == Start(f) && run[|run|-1].Answered? && StallsAtMost(rules, Start(f), bound)
    ensures AnswersWithin(rules, f, bound)
  {
    hide IsRun, Stalls;
  }

  lemma AnswerMeansBounded(rules: Rules, f: seq<Clause>, bound: nat)
    ensures AnswersWithin(rules, f, bound) ==> StallsAtMost(rules, Start(f), bound)
  {
    hide Turn, Stalls, StallsAtMost;
    if AnswersWithin(rules, f, bound) {
      var run: seq<Search> :|
        IsRun(rules, run) && run[0] == Start(f) && run[|run|-1].Answered? && Stalls(run) <= bound;
      Finished(rules, run, bound);
    }
  }
}

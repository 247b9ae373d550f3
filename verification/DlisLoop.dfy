/** A formula on which the DLIS solver never answers.  Each of its analyses
    stops at the decision and learns a clause the formula already has, which
    only shifts the literal counts. */
module DlisLoop {
  import opened Logic
  import opened ImplicationGraph
  import opened SearchState
  import opened SearchSteps
  import opened ClauseOrder
  import opened DlisChoice
  import opened SearchRuns

  const A: Clause := [1, 2]
  const B: Clause := [-2, 1]
  const C: Clause := [-1, 2]
  const D: Clause := [-2, -1]

  const FOUR: seq<Clause> := [A, B, C, D]

  const ROOT := Graph([], map[], map[], map[], map[])

  lemma PairSat(x: Lit, y: Lit, m: Model)
    ensures SatClause([x, y], m) <==> True(x, m) || True(y, m)
  {
    assert x in [x, y] && y in [x, y];
  }

  lemma FourIsUnsat()
    ensures Proper(FOUR) && Unsat(FOUR)
  {
    forall m: Model
      ensures !SatAll(FOUR, m)
    {
      PairSat(1, 2, m);
      PairSat(-2, 1, m);
      PairSat(-1, 2, m);
      PairSat(-2, -1, m);
      assert A in FOUR && B in FOUR && C in FOUR && D in FOUR;
    }
  }

  ghost predicate Shape(f: seq<Clause>) {
    FOUR <= f && forall c :: c in f ==> c in FOUR
  }

  /** The literal counts that DLIS compares at the root. */
  ghost predicate Counts(f: seq<Clause>, pos1: nat, neg1: nat, pos2: nat, neg2: nat) {
    && OpenCount(f, map[], 1) == pos1 && OpenCount(f, map[], -1) == neg1
    && OpenCount(f, map[], 2) == pos2 && OpenCount(f, map[], -2) == neg2
  }

  ghost predicate Tied(f: seq<Clause>, n: nat) {
    Counts(f, n + 2, n + 3, n + 2, n + 3)
  }

  ghost predicate Tilted(f: seq<Clause>, n: nat) {
    Counts(f, n + 3, n + 3, n + 2, n + 4)
  }

  ghost predicate Looping(f: seq<Clause>) {
    && Shape(f)
    && (|| Counts(f, 2, 2, 2, 2)
        || Counts(f, 3, 2, 2, 3)
        || exists n: nat :: Tied(f, n) || Tilted(f, n))
  }

  // ----------------------------------------------------------------- counting

  lemma OpenPair(x: Lit, y: Lit, value: map<int, bool>)
    ensures OpenLits([x, y], value) == (if Var(x) in value then [] else [x]) + (if Var(y) in value then [] else [y])
  {
    assert [x, y][..1] == [x] && [x][..0] == [];
    assert OpenLits([x], value) == if Var(x) in value then [] else [x];
  }

  lemma TimesPair(x: Lit, y: Lit, l: Lit)
    ensures Times([x, y], l) == (if x == l then 1 else 0) + (if y == l then 1 else 0)
  {
    assert [x, y][..1] == [x] && [x][..0] == [];
    assert Times([x], l) == if x == l then 1 else 0;
  }

  /** The status of a clause with two different variables. */
  lemma PairStatus(x: Lit, y: Lit, value: map<int, bool>)
    ensures StatusOf([x, y], value) ==
      if TrueIn(x, value) || TrueIn(y, value) then Satisfied
      else if Var(x) in value && Var(y) in value then Conflict
      else if Var(x) in value then Unit(y)
      else if Var(y) in value then Unit(x)
      else Undefined
  {
    OpenPair(x, y, value);
    assert x in [x, y] && y in [x, y];
  }

  lemma CountMore(f: seq<Clause>, x: Lit, y: Lit, l: Lit)
    ensures OpenCount(f + [[x, y]], map[], l) ==
      OpenCount(f, map[], l) + (if x == l then 1 else 0) + (if y == l then 1 else 0)
  {
    var more := f + [[x, y]];
    assert more[..|more|-1] == f;
    PairStatus(x, y, map[]);
    TimesPair(x, y, l);
  }

  lemma CountsMore(f: seq<Clause>, c: Clause, pos1: nat, neg1: nat, pos2: nat, neg2: nat)
    requires Counts(f, pos1, neg1, pos2, neg2)
    ensures c == A ==> Counts(f + [c], pos1 + 1, neg1, pos2 + 1, neg2)
    ensures c == B ==> Counts(f + [c], pos1 + 1, neg1, pos2, neg2 + 1)
    ensures c == C ==> Counts(f + [c], pos1, neg1 + 1, pos2 + 1, neg2)
    ensures c == D ==> Counts(f + [c], pos1, neg1 + 1, pos2, neg2 + 1)
  {
    if c in FOUR {
      CountMore(f, c[0], c[1], 1);
      CountMore(f, c[0], c[1], -1);
      CountMore(f, c[0], c[1], 2);
      CountMore(f, c[0], c[1], -2);
      assert c == [c[0], c[1]];
    }
  }

  lemma NoCounts()
    ensures Counts([], 0, 0, 0, 0)
  {
  }

  lemma FourCounts()
    ensures Looping(FOUR)
  {
    hide OpenCount, Counts;
    NoCounts();
    assert [] + [A] == [A] && [A] + [B] == [A, B] && [A, B] + [C] == [A, B, C] && [A, B, C] + [D] == FOUR;
    CountsMore([], A, 0, 0, 0, 0);
    CountsMore([A], B, 1, 0, 1, 0);
    CountsMore([A, B], C, 2, 0, 1, 1);
    CountsMore([A, B, C], D, 2, 1, 2, 1);
  }

  lemma LoopVars(f: seq<Clause>)
    requires Shape(f)
    ensures VarsOf(f) == {1, 2}
  {
    assert f[0] == FOUR[0] == A && A in f && 1 in A && 2 in A;
    assert Var(1) in VarsOf(f) && Var(2) in VarsOf(f);
  }

  /** The variable with the better counts is picked, with its better sign. */
  lemma PickFrom(f: seq<Clause>, l: Lit)
    requires Shape(f)
    requires l == 1 || l == -1 || l == 2 || l == -2
    requires Ahead(Rating(f, map[], Var(l)), Rating(f, map[], 3 - Var(l)))
    requires l > 0 <==> OpenCount(f, map[], Var(l)) > OpenCount(f, map[], Neg(Var(l)))
    ensures Picks(f, map[], l)
  {
    LoopVars(f);
  }

  /** The decision of each round, and the clause its conflict is going to add. */
  lemma Round(f: seq<Clause>) returns (l: Lit, c: Clause)
    requires Looping(f)
    ensures Picks(f, map[], l) && Looping(f + [c])
    ensures (l == -1 && c == B) || (l == -2 && c == C) || (l == 1 && c == D)
  {
    hide OpenCount;
    if Counts(f, 2, 2, 2, 2) {
      l, c := -1, B;
      CountsMore(f, c, 2, 2, 2, 2);
    } else if Counts(f, 3, 2, 2, 3) {
      l, c := 1, D;
      CountsMore(f, c, 3, 2, 2, 3);
      assert Tilted(f + [c], 0);
    } else {
      var n: nat :| Tied(f, n) || Tilted(f, n);
      if Tied(f, n) {
        l, c := -1, B;
        CountsMore(f, c, n + 2, n + 3, n + 2, n + 3);
        assert Tilted(f + [c], n);
      } else {
        l, c := -2, C;
        CountsMore(f, c, n + 3, n + 3, n + 2, n + 4);
        assert Tied(f + [c], n + 1);
      }
    }
    PickFrom(f, l);
    assert B in FOUR && C in FOUR && D in FOUR;
  }

  // ------------------------------------------------------------- propagation

  lemma RootSearches(f: seq<Clause>)
    ensures Searching(f, ROOT, 0)
  {
  }

  /** Nothing propagates before the first decision. */
  lemma RootQuiet(f: seq<Clause>)
    requires Shape(f)
    ensures Searching(f, ROOT, 0) && Propagate(f, ROOT, 0) == Propagation(ROOT, None, false)
  {
    hide Searching;
    RootSearches(f);
    forall k | 0 <= k < |f|
      ensures StatusOf(f[k], map[]).Undefined?
    {
      assert f[k] in FOUR;
      PairStatus(1, 2, map[]);
      PairStatus(-2, 1, map[]);
      PairStatus(-1, 2, map[]);
      PairStatus(-2, -1, map[]);
    }
    PassSkips(f, 0, |f|, ROOT, 0, false);
  }

  lemma RootIsIdle(f: seq<Clause>)
    requires Shape(f)
    ensures Idle(Searched(f, ROOT, 0))
  {
    hide Searching, Propagate, Shape;
    RootQuiet(f);
  }

  ghost function Decided(l: Lit): Graph {
    Extend(ROOT, l, 1, None)
  }

  lemma DecidedSearches(f: seq<Clause>, l: Lit)
    requires Var(l) in VarsOf(f)
    ensures Searching(f, Decided(l), 1)
  {
    hide Searching;
    RootSearches(f);
    DecisionKeeps(f, ROOT, 0, l);
  }

  /** After deciding `l`, clause `k` propagates `u` and clause `j` fails. */
  lemma ConflictPass(f: seq<Clause>, l: Lit, u: Lit, k: nat, j: nat)
    requires k < j < |f| && Searching(f, Decided(l), 1)
    requires forall i :: 0 <= i < k ==> StatusOf(f[i], Decided(l).value).Satisfied?
    requires StatusOf(f[k], Decided(l).value) == Unit(u)
    requires forall i :: k < i < j ==> StatusOf(f[i], Decided(l).value[Var(u) := u > 0]).Satisfied?
    requires StatusOf(f[j], Decided(l).value[Var(u) := u > 0]).Conflict?
    ensures Propagate(f, Decided(l), 1) == Propagation(Extend(Decided(l), u, 1, Some(f[k])), Some(f[j]), true)
  {
    hide Searching, StatusOf, Sound;
    var g := Decided(l);
    var h := Extend(g, u, 1, Some(f[k]));
    PassSkips(f, 0, k, g, 1, false);
    PassKeeps(f, k, g, 1);
    assert Pass(f, k, g, 1, false) == Pass(f, k + 1, h, 1, true);
    PassSkips(f, k + 1, j, h, 1, true);
    assert Pass(f, j, h, 1, true) == Propagation(h, Some(f[j]), true);
  }

  // ------------------------------------------------------------------ analysis

  /** The conflict clause ends in the decision, so the analysis gives it back. */
  lemma AnalysisStops(f: seq<Clause>, l: Lit, u: Lit, r: Clause, x: Lit)
    requires Var(l) != Var(u) && Var(x) == Var(u)
    requires var h := Extend(Decided(l), u, 1, Some(r));
      Searching(f, h, 1) && Falsified(Lits([x, Neg(l)]), h)
    ensures var h := Extend(Decided(l), u, 1, Some(r));
      && WellFormed(h) && Indexed(h) && Falsified(Lits([x, Neg(l)]), h)
      && Analyzed([x, Neg(l)], h, 1) == [x, Neg(l)] && !SoleOn([x, Neg(l)], h, 1)
  {
    hide Searching, WellFormed;
    var h := Extend(Decided(l), u, 1, Some(r));
    var c := [x, Neg(l)];
    SearchingParts(f, h);
    assert h.level == map[Var(l) := 1, Var(u) := 1] && h.reason[Var(l)] == None;
    PairOnLevel(x, Neg(l), h);
    assert x in c && x in Lits(c) && AtLevel(x, h, 1);
  }

  lemma SearchingParts(f: seq<Clause>, g: Graph)
    requires Searching(f, g, 1)
    ensures WellFormed(g) && Indexed(g)
  {
  }

  lemma PairOnLevel(x: Lit, y: Lit, g: Graph)
    requires AtLevel(x, g, 1) && AtLevel(y, g, 1)
    ensures OnLevel([x, y], g, 1) == [x, y]
  {
    assert [x, y][..1] == [x] && [x][..0] == [];
    assert OnLevel([x], g, 1) == [x];
  }

  /** Back at the root only the copy of the clause remains. */
  lemma JumpsToRoot(f: seq<Clause>, l: Lit, u: Lit, r: Clause, x: Lit)
    requires Var(l) != Var(u) && Var(x) == Var(u)
    requires Indexed(Extend(Decided(l), u, 1, Some(r)))
    ensures var h := Extend(Decided(l), u, 1, Some(r));
      var c := [x, Neg(l)];
      JumpsTo(f, h, 1, c, 0, 0, Searched(f + [c], ROOT, 0))
  {
    var h := Extend(Decided(l), u, 1, Some(r));
    var c := [x, Neg(l)];
    var t0 := Searched(f + [c], ROOT, 0);
    assert h.trail == [l, u] && h.level == map[Var(l) := 1, Var(u) := 1];
    RootIsCut(h);
    assert JumpsTo(f, h, 1, c, 0, 0, t0);
  }

  lemma RootIsCut(h: Graph)
    requires forall v :: v in h.level ==> h.level[v] > 0
    ensures Cut(h, 0, 0) == ROOT
  {
    var k := Cut(h, 0, 0);
    assert k.trail == [];
    forall v
      ensures v !in k.value && v !in k.level && v !in k.reason && v !in k.pos
    {
      assert v in h.level ==> h.level[v] > 0;
    }
    assert k.value == map[] && k.level == map[] && k.reason == map[] && k.pos == map[];
  }

  /** The propagation a decision causes: clause `k` forces `u`, and clause `j`,
      which is `c`, fails. */
  lemma ConflictOf(f: seq<Clause>, l: Lit, c: Clause) returns (u: Lit, k: nat, j: nat)
    requires Shape(f)
    requires (l == -1 && c == B) || (l == -2 && c == C) || (l == 1 && c == D)
    ensures k < j < |f| && f[j] == c == [c[0], Neg(l)] && Var(c[0]) == Var(u) != Var(l)
    ensures forall i :: 0 <= i < k ==> StatusOf(f[i], Decided(l).value).Satisfied?
    ensures StatusOf(f[k], Decided(l).value) == Unit(u)
    ensures forall i :: k < i < j ==> StatusOf(f[i], Decided(l).value[Var(u) := u > 0]).Satisfied?
    ensures StatusOf(f[j], Decided(l).value[Var(u) := u > 0]).Conflict?
  {
    hide StatusOf;
    assert f[0] == FOUR[0] == [1, 2] && f[1] == FOUR[1] == [-2, 1];
    assert f[2] == FOUR[2] == [-1, 2] && f[3] == FOUR[3] == [-2, -1];
    u := if l == -2 then 1 else 2;
    k := if l == 1 then 2 else 0;
    j := if l == 1 then 3 else if l == -2 then 2 else 1;
    var before := Decided(l).value;
    var after := before[Var(u) := u > 0];
    PairStatus(f[0][0], f[0][1], before);
    PairStatus(f[1][0], f[1][1], before);
    PairStatus(f[2][0], f[2][1], before);
    PairStatus(f[1][0], f[1][1], after);
    PairStatus(f[j][0], f[j][1], after);
  }

  lemma SoundConflict(f: seq<Clause>, g: Graph)
    requires Searching(f, g, 1) && Propagate(f, g, 1).conflict.Some?
    ensures var p := Propagate(f, g, 1); Searching(f, p.g, 1) && Falsified(Lits(p.conflict.value), p.g)
  {
  }

  /** A round ends with a copy of one of the clauses, whatever it decides. */
  lemma ConflictTurn(f: seq<Clause>, l: Lit, c: Clause, t: Search)
    requires Shape(f)
    requires (l == -1 && c == B) || (l == -2 && c == C) || (l == 1 && c == D)
    ensures Turn(DlisRules, Searched(f, Decided(l), 1), t) <==> t == Searched(f + [c], ROOT, 0)
  {
    hide Searching, StatusOf, Sound, JumpsTo, Shape, SoleOn, Falsified, Learns, WellFormed, Indexed, Propagate,
         Analyzed, VarsOf, Cut;
    LoopVars(f);
    DecidedSearches(f, l);
    var u, k, j := ConflictOf(f, l, c);
    ConflictPass(f, l, u, k, j);
    var h := Extend(Decided(l), u, 1, Some(f[k]));
    SoundConflict(f, Decided(l));
    AnalysisStops(f, l, u, f[k], c[0]);
    JumpsToRoot(f, l, u, f[k], c[0]);
    LearnsOne(DlisRules, f, h, 1, c, 0, 0, Searched(f + [c], ROOT, 0), t);
  }

  /** The first turn of a round decides. */
  lemma DecisionTurn(f: seq<Clause>, l: Lit, t: Search)
    requires Shape(f) && Picks(f, map[], l)
    ensures Turn(DlisRules, Searched(f, ROOT, 0), t) <==> t == Searched(f, Decided(l), 1)
  {
    hide Searching, Shape, Picks;
    LoopVars(f);
    RootQuiet(f);
    assert Branches(DlisRules, f, map[], l);
    if Turn(DlisRules, Searched(f, ROOT, 0), t) {
      var k :| Branches(DlisRules, f, map[], k) && t == Searched(f, Extend(ROOT, k, 1, None), 1);
      BranchesOne(DlisRules, f, map[], l, k);
    }
  }

  ghost predicate InLoop(s: Search) {
    && s.Searched? && Looping(s.f)
    && (|| (s.g == ROOT && s.lv == 0)
        || (s.lv == 1 && exists l :: Picks(s.f, map[], l) && s.g == Decided(l)))
  }

  /** Every state of the loop has one successor, and it is in the loop. */
  lemma LoopGoesOn(s: Search) returns (t: Search)
    requires InLoop(s)
    ensures Turn(DlisRules, s, t) && InLoop(t) && forall w :: Turn(DlisRules, s, w) ==> w == t
    ensures s.lv <= 1 && t.lv == 1 - s.lv && (Stalled(s, t) <==> s.lv == 1)
  {
    hide Looping, Picks, Turn, Shape, Idle;
    var l, c := Round(s.f);
    LoopingShape(s.f);
    LoopingShape(s.f + [c]);
    t := if s.lv == 0 then Searched(s.f, Decided(l), 1) else Searched(s.f + [c], ROOT, 0);
    if s.lv == 0 {
      DecisionTurn(s.f, l, t);
    } else {
      var k :| Picks(s.f, map[], k) && s.g == Decided(k);
      PicksOne(s.f, map[], l, k);
      ConflictTurn(s.f, l, c, t);
      RootIsIdle(s.f + [c]);
    }
    forall w | Turn(DlisRules, s, w)
      ensures w == t
    {
      TurnIsOne(DlisRules, s, t, w);
    }
  }

  lemma LoopingShape(f: seq<Clause>)
    requires Looping(f)
    ensures Shape(f)
  {
  }

  /** On the four clauses, no run of the solver reaches an answer, although
      they are unsatisfiable; and there are runs of every length. */
  lemma {:induction false} NeverAnswers(run: seq<Search>, i: nat)
    requires IsRun(DlisRules, run) && run[0] == Searched(FOUR, ROOT, 0) && i < |run|
    ensures InLoop(run[i])
    ensures run[i].Searched?
  {
    hide InLoop, Turn;
    if i == 0 {
      FourCounts();
      StartsLoop();
    } else {
      NeverAnswers(run, i - 1);
      var t := LoopGoesOn(run[i-1]);
      assert Turn(DlisRules, run[i-1], run[i-1+1]);
    }
    LoopIsSearch(run[i]);
  }

  lemma StartsLoop()
    requires Looping(FOUR)
    ensures InLoop(Searched(FOUR, ROOT, 0))
  {
  }

  lemma LoopIsSearch(s: Search)
    requires InLoop(s)
    ensures s.Searched?
  {
  }

  /** Every other turn of that run stalls: its clause is a copy and forces nothing. */
  lemma {:induction false} RunsForever(n: nat) returns (run: seq<Search>)
    ensures IsRun(DlisRules, run) && |run| == n + 1 && run[0] == Searched(FOUR, ROOT, 0)
    ensures InLoop(run[n]) && run[n].lv == n % 2 && Stalls(run) == n / 2
  {
    hide InLoop, Turn, Stalled, Looping;
    if n == 0 {
      run := [Searched(FOUR, ROOT, 0)];
      FourCounts();
      StartsLoop();
    } else {
      run := RunsForever(n - 1);
      LoopIsSearch(run[n-1]);
      var t := LoopGoesOn(run[n-1]);
      LoopIsSearch(t);
      RunGrows(DlisRules, run, t);
      run := run + [t];
    }
  }

  /** So the condition for an answer fails for this input, whatever the bound. */
  lemma LoopIsUnbounded(b: nat)
    ensures !StallsAtMost(DlisRules, Searched(FOUR, ROOT, 0), b)
  {
    hide IsRun, Stalls, InLoop;
    var run := RunsForever(2 * b + 2);
  }

  /** An empty input clause is taken for no conflict: both solvers answer with
      the empty assignment although the formula has no model. */
  lemma EmptyClauseAnswered(rules: Rules)
    ensures Unsat([[]]) && !NonEmpty([[]])
    ensures Turn(rules, Searched([[]], ROOT, 0), Answered(Some(map[])))
  {
    hide Searching;
    var f: seq<Clause> := [[]];
    assert [] in f;
    RootSearches(f);
    assert Pass(f, 0, ROOT, 0, false) == Propagation(ROOT, Some([]), false);
    assert VarsOf(f) == {};
    forall m: Model
      ensures !SatAll(f, m)
    {
      assert !SatClause([], m);
    }
  }

  // ----------------------------------------------------- the order of literals

  /** After deciding 1 both 2 and 3 are forced, and [-2,-3] fails. */
  const SIX: seq<Clause> := [[2, -1], [3, -1], [-2, -3], [1, 4, 5], [1, 6, 7], [1, 8, 9]]

  ghost function BothForced(): Graph {
    Extend(Extend(Decided(1), 2, 1, Some([2, -1])), 3, 1, Some([3, -1]))
  }

  lemma ForcedSearches()
    ensures Searching(SIX, BothForced(), 1) && WellFormed(BothForced())
    ensures Falsified(Lits([-2, -3]), BothForced())
  {
    hide Searching;
    var f := SIX;
    var x, y: Clause := [2, -1], [3, -1];
    assert f[0] == x && f[1] == y;
    assert 2 in x && -1 in x && x in f && y in f && Var(-1) in VarsOf(f);
    DecidedSearches(f, 1);
    PairUnit(2, -1, Decided(1).value);
    UnitExtends(f, Decided(1), 1, x, 2);
    PairUnit(3, -1, Extend(Decided(1), 2, 1, Some(x)).value);
    UnitExtends(f, Extend(Decided(1), 2, 1, Some(x)), 1, y, 3);
    SearchingParts(f, BothForced());
  }

  lemma PairUnit(u: Lit, l: Lit, value: map<int, bool>)
    requires Var(u) !in value && FalseIn(l, value)
    ensures UnitWith([u, l], value, u)
  {
    assert [u, l][0] == u;
  }

  lemma ForcedLevels()
    ensures var g := BothForced();
      && AtLevel(-1, g, 1) && AtLevel(-2, g, 1) && AtLevel(-3, g, 1)
      && 1 in g.reason && g.reason[1] == None && 3 in g.reason && g.reason[3] == Some([3, -1])
  {
  }

  lemma ForcedSteps()
    ensures var g := BothForced();
      && Resolvable([-2, -3], g, 1) && NextClause([-2, -3], g, 1) == [-2, -1] && !Resolvable([-2, -1], g, 1)
  {
    hide OnLevel, BothForced, ResolventInOrder;
    ForcedLevels();
    PairOnLevel(-2, -3, BothForced());
    PairOnLevel(-2, -1, BothForced());
    ResolvedInOrder();
  }

  /** The last literal, -3, is resolved with [3,-1]; its resolvent ends in the
      decision, so the analysis stops there and learns [-2,-1]. */
  lemma OrderDecides()
    ensures WellFormed(BothForced()) && Falsified(Lits([-2, -3]), BothForced())
    ensures Analyzed([-2, -3], BothForced(), 1) == [-2, -1] && !SoleOn([-2, -1], BothForced(), 1)
  {
    hide Searching, WellFormed, Falsified, BothForced, NextClause, Resolvable;
    ForcedSearches();
    ForcedSteps();
    ForcedLevels();
    NextKeeps([-2, -3], BothForced(), 1);
    assert [-2, -1][0] == -2 && [-2, -1][1] == -1;
  }

  lemma ResolvedInOrder()
    ensures ResolventInOrder([-2, -3], [3, -1], -3) == [-2, -1]
  {
    var c, d: Clause := [-2, -3], [3, -1];
    assert c[1..] == [-3] && [-3][1..] == [] && d[1..] == [-1] && [-1][1..] == [];
    assert Merged([], c, -3) == Merged([-2], [-3], -3) == Merged([-2], [], -3) == [-2];
    assert Merged([-2], d, 3) == Merged([-2], [-1], 3) == Merged([-2, -1], [], 3);
  }
}

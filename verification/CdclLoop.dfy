/** A formula on which the plain CDCL solver never answers: its only clause
    repeats a literal, is never found to be unit, and is learned again and again
    once the solver has decided against it. */
module CdclLoop {
  import opened Logic
  import opened ImplicationGraph
  import opened SearchState
  import opened SearchSteps
  import opened TrailOrder
  import opened SearchRuns
  import opened DlisLoop

  const TWICE: Clause := [-1, -1]

  const ONLY: Rules := PlainRules([1])

  ghost predicate Copies(f: seq<Clause>) {
    f != [] && forall c :: c in f ==> c == TWICE
  }

  /** The formula has a model, and its clause is not empty. */
  lemma TwiceIsSatisfiable()
    ensures SatAll([TWICE], {}) && NonEmpty([TWICE]) && !Proper([TWICE])
  {
    assert TWICE in [TWICE] && TWICE[0] == TWICE[1] && -1 in TWICE;
    assert SatClause(TWICE, {});
  }

  lemma TwiceStatus(value: map<int, bool>)
    ensures StatusOf(TWICE, value) ==
      if TrueIn(-1, value) then Satisfied else if 1 in value then Conflict else Undefined
  {
    OpenPair(-1, -1, value);
    assert -1 in TWICE;
  }

  lemma CopiesVars(f: seq<Clause>)
    requires Copies(f)
    ensures VarsOf(f) == {1}
  {
    assert f[0] in f && -1 in f[0] && Var(-1) in VarsOf(f);
  }

  lemma OneBranch(f: seq<Clause>)
    ensures Branches(ONLY, f, map[], 1)
  {
    var order: seq<Variable> := [1];
    assert order[0] == 1 && FirstOpen(order, map[], 1);
  }

  /** At the root nothing is unit. */
  lemma RootIsIdle(f: seq<Clause>)
    requires Copies(f)
    ensures Searching(f, ROOT, 0) && Propagate(f, ROOT, 0) == Propagation(ROOT, None, false)
    ensures Idle(Searched(f, ROOT, 0))
  {
    hide Searching, StatusOf, OpenLits;
    RootSearches(f);
    forall k | 0 <= k < |f|
      ensures StatusOf(f[k], map[]).Undefined?
    {
      assert f[k] in f;
      TwiceStatus(map[]);
    }
    PassSkips(f, 0, |f|, ROOT, 0, false);
  }

  /** So the variable is decided. */
  lemma DecisionTurn(f: seq<Clause>, t: Search)
    requires Copies(f)
    ensures Turn(ONLY, Searched(f, ROOT, 0), t) <==> t == Searched(f, Decided(1), 1)
  {
    hide Searching, Propagate;
    RootIsIdle(f);
    CopiesVars(f);
    OneBranch(f);
    if Turn(ONLY, Searched(f, ROOT, 0), t) {
      var l :| Branches(ONLY, f, map[], l) && t == Searched(f, Extend(ROOT, l, 1, None), 1);
      BranchesOne(ONLY, f, map[], l, 1);
    }
  }

  /** The analysis ends at the decision and gives the clause back. */
  lemma LearnsTwice()
    ensures var g := Decided(1); |g.trail| == 1 && Learned(TWICE, g, 1, 1) == TWICE && !SoleOn(TWICE, g, 1)
  {
    hide SoleOn, OnLevel;
    var g := Decided(1);
    assert g.trail == [1] && g.level == map[1 := 1] && g.reason == map[1 := None];
    PairOnLevel(-1, -1, g);
    OnLevelCount(TWICE, g, 1);
    assert -1 in TWICE && !ResolvesAt(Lits(TWICE), g, 1, 1);
  }

  lemma ConflictPropagated(f: seq<Clause>)
    requires Copies(f)
    ensures Searching(f, Decided(1), 1) && Propagate(f, Decided(1), 1) == Propagation(Decided(1), Some(TWICE), false)
  {
    hide Searching, StatusOf;
    CopiesVars(f);
    DecidedSearches(f, 1);
    assert f[0] in f;
    TwiceStatus(Decided(1).value);
  }

  /** After it the clause is a conflict, and the solver is back at the root
      with one more copy. */
  lemma ConflictTurn(f: seq<Clause>, t: Search)
    requires Copies(f)
    ensures Turn(ONLY, Searched(f, Decided(1), 1), t) <==> t == Searched(f + [TWICE], ROOT, 0)
  {
    hide Searching, Sound, JumpsTo, SoleOn, Falsified, Learns, WellFormed, Indexed, Propagate, Learned, VarsOf;
    var g := Decided(1);
    ConflictPropagated(f);
    SoundConflict(f, g);
    SearchingParts(f, g);
    LearnsTwice();
    BackAtRoot(f, g);
    LearnsOne(ONLY, f, g, 1, TWICE, 0, 0, Searched(f + [TWICE], ROOT, 0), t);
  }

  lemma BackAtRoot(f: seq<Clause>, g: Graph)
    requires g == Decided(1) && Indexed(g)
    ensures JumpsTo(f, g, 1, TWICE, 0, 0, Searched(f + [TWICE], ROOT, 0))
  {
    RootIsCut(g);
  }

  ghost predicate InLoop(s: Search) {
    s.Searched? && Copies(s.f) && ((s.g == ROOT && s.lv == 0) || (s.g == Decided(1) && s.lv == 1))
  }

  /** Every state of the loop has one successor, and it is in the loop. */
  lemma LoopGoesOn(s: Search) returns (t: Search)
    requires InLoop(s)
    ensures Turn(ONLY, s, t) && InLoop(t) && forall w :: Turn(ONLY, s, w) ==> w == t
    ensures s.lv <= 1 && t.lv == 1 - s.lv && (Stalled(s, t) <==> s.lv == 1)
  {
    hide Turn, Idle;
    t := if s.lv == 0 then Searched(s.f, Decided(1), 1) else Searched(s.f + [TWICE], ROOT, 0);
    if s.lv == 0 {
      DecisionTurn(s.f, t);
    } else {
      ConflictTurn(s.f, t);
      RootIsIdle(s.f + [TWICE]);
    }
    forall w | Turn(ONLY, s, w)
      ensures w == t
    {
      TurnIsOne(ONLY, s, t, w);
    }
  }

  /** No run from the formula reaches an answer, although it has a model. */
  lemma {:induction false} RepeatNeverAnswers(run: seq<Search>, i: nat)
    requires IsRun(ONLY, run) && run[0] == Start([TWICE]) && i < |run|
    ensures InLoop(run[i]) && run[i].Searched?
  {
    hide Turn;
    if i > 0 {
      RepeatNeverAnswers(run, i - 1);
      var t := LoopGoesOn(run[i-1]);
      assert Turn(ONLY, run[i-1], run[i-1+1]);
    }
  }

  lemma {:induction false} RunsOn(n: nat) returns (run: seq<Search>)
    ensures IsRun(ONLY, run) && |run| == n + 1 && run[0] == Start([TWICE])
    ensures InLoop(run[n]) && run[n].lv == n % 2 && Stalls(run) == n / 2
  {
    hide Turn, Stalled;
    if n == 0 {
      run := [Start([TWICE])];
    } else {
      run := RunsOn(n - 1);
      var t := LoopGoesOn(run[n-1]);
      RunGrows(ONLY, run, t);
      run := run + [t];
    }
  }

  /** So the condition for an answer fails for this input, whatever the bound. */
  lemma RepeatIsUnbounded(b: nat)
    ensures !StallsAtMost(ONLY, Start([TWICE]), b)
  {
    hide IsRun, Stalls, InLoop;
    var run := RunsOn(2 * b + 2);
  }
}

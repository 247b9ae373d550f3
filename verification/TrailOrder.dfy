/** The conflict analysis of the plain CDCL solver, on clauses that may repeat
    literals: it resolves on the latest literal of the conflict level until one
    position is left there, or until that literal is the decision. */
module TrailOrder {
  import opened Logic
  import opened ImplicationGraph
  import opened SearchState
  import opened SearchSteps

  /** The clause learned from `c`, when its literals on level `lv` are denied
      by the first `k` trail literals. */
  ghost function Learned(c: Clause, g: Graph, lv: nat, k: nat): Clause
    requires k <= |g.trail|
    decreases k
  {
    if k == 0 || |OnLevel(c, g, lv)| <= 1 then c
    else
      var t := g.trail[k-1];
      if !(Neg(t) in c && AtLevel(t, g, lv)) then Learned(c, g, lv, k - 1)
      else if ResolvesAt(Lits(c), g, lv, t) then
        Learned(ResolventInOrder(c, g.reason[Var(t)].value, Neg(t)), g, lv, k - 1)
      else c
  }

  /** Positions that the clause has no interest in may be skipped at once. */
  lemma {:induction false} LearnedSkip(c: Clause, g: Graph, lv: nat, j: nat, k: nat)
    requires j <= k <= |g.trail|
    requires forall i :: j <= i < k ==> !(Neg(g.trail[i]) in c && AtLevel(g.trail[i], g, lv))
    ensures Learned(c, g, lv, k) == Learned(c, g, lv, j)
    decreases k
  {
    if j < k {
      LearnedSkip(c, g, lv, j, k - 1);
    }
  }

  lemma AllBefore(c: set<Lit>, g: Graph, lv: nat)
    requires Indexed(g)
    ensures Before(c, g, lv, |g.trail|)
  {
  }

  /** When position `at` holds the latest literal denied by `c` on the level. */
  lemma LatestIsNext(c: Clause, g: Graph, lv: nat, at: nat, k: nat)
    requires Indexed(g) && k <= |g.trail| && at < |g.trail|
    requires Falsified(Lits(c), g) && Before(Lits(c), g, lv, k)
    requires Neg(g.trail[at]) in c && AtLevel(g.trail[at], g, lv)
    requires forall i :: at < i < |g.trail| ==> !(Neg(g.trail[i]) in c && AtLevel(g.trail[i], g, lv))
    ensures at < k && Before(Lits(c), g, lv, at + 1) && Learned(c, g, lv, k) == Learned(c, g, lv, at + 1)
  {
    hide Learned;
    assert Neg(g.trail[at]) in Lits(c) && g.pos[Var(g.trail[at])] == at;
    forall l | l in Lits(c) && AtLevel(l, g, lv)
      ensures g.pos[Var(l)] < at + 1
    {
      assert IsFalse(l, g) && Neg(g.trail[g.pos[Var(l)]]) == l && AtLevel(g.trail[g.pos[Var(l)]], g, lv);
    }
    LearnedSkip(c, g, lv, at + 1, k);
  }

  lemma LearnedDone(c: Clause, g: Graph, lv: nat, k: nat)
    requires k <= |g.trail| && |OnLevel(c, g, lv)| <= 1
    ensures Learned(c, g, lv, k) == c
  {
  }

  lemma WellFormedIndexed(g: Graph)
    requires WellFormed(g)
    ensures Indexed(g)
  {
  }

  /** The analysis stops there at a decision, and resolves otherwise. */
  lemma AnalysisStep(c: Clause, g: Graph, lv: nat, at: nat)
    requires WellFormed(g) && at < |g.trail| && Neg(g.trail[at]) in c && AtLevel(g.trail[at], g, lv)
    requires Falsified(Lits(c), g) && Before(Lits(c), g, lv, at + 1) && |OnLevel(c, g, lv)| > 1
    ensures Var(g.trail[at]) in g.reason
    ensures match g.reason[Var(g.trail[at])]
            case None => Learned(c, g, lv, at + 1) == c
            case Some(r) =>
              var d := ResolventInOrder(c, r, Neg(g.trail[at]));
              && Learned(c, g, lv, at + 1) == Learned(d, g, lv, at)
              && Falsified(Lits(d), g) && Before(Lits(d), g, lv, at)
  {
    hide Justified, Falsified, Before;
    var t := g.trail[at];
    assert Neg(t) in Lits(c);
    if g.reason[Var(t)].Some? {
      StepKeeps(Lits(c), g, lv, at + 1);
      ResolventLits(c, g.reason[Var(t)].value, Neg(t));
    }
  }

  lemma SkipOther(c: Clause, g: Graph, lv: nat, k: nat)
    requires Indexed(g) && 0 < k <= |g.trail| && Falsified(Lits(c), g) && Before(Lits(c), g, lv, k)
    requires !(Neg(g.trail[k-1]) in c && AtLevel(g.trail[k-1], g, lv))
    ensures Before(Lits(c), g, lv, k - 1)
  {
    forall l | l in Lits(c) && AtLevel(l, g, lv)
      ensures g.pos[Var(l)] < k - 1
    {
      assert IsFalse(l, g) && IsTrue(g.trail[g.pos[Var(l)]], g);
    }
  }

  /** One resolution step, even on the only literal of the conflict level. */
  lemma StepReaches(c: Clause, g: Graph, lv: nat, k: nat)
    requires WellFormed(g) && ReasonsReach(g, lv) && 0 < k <= |g.trail|
    requires Falsified(Lits(c), g) && Before(Lits(c), g, lv, k) && ResolvesAt(Lits(c), g, lv, g.trail[k-1])
    ensures var d := ResolventInOrder(c, g.reason[Var(g.trail[k-1])].value, Neg(g.trail[k-1]));
      && Lits(d) == ResolveAt(Lits(c), g, g.trail[k-1]) && NoDuplicates(d)
      && Falsified(Lits(d), g) && Before(Lits(d), g, lv, k - 1) && Reaches(Lits(d), g, lv)
  {
    hide Falsified, Before, Justified, NoDuplicates;
    var t := g.trail[k-1];
    var r := g.reason[Var(t)].value;
    StepKeeps(Lits(c), g, lv, k);
    ResolventLits(c, r, Neg(t));
    assert ReasonReaches(g, k - 1, lv);
    var y :| y in r && y != t && AtLevel(y, g, lv);
    assert y in Lits(r);
  }

  /** The learned clause is implied and false. */
  lemma {:induction false} LearnedSound(f: seq<Clause>, c: Clause, g: Graph, lv: nat, k: nat)
    requires WellFormed(g) && ReasonsFrom(g, f) && k <= |g.trail|
    requires Falsified(Lits(c), g) && Before(Lits(c), g, lv, k) && Entails(f, Lits(c))
    ensures var u := Learned(c, g, lv, k); Falsified(Lits(u), g) && Entails(f, Lits(u))
    decreases k
  {
    hide Falsified, Before, Entails, Justified;
    if k > 0 && |OnLevel(c, g, lv)| > 1 {
      var t := g.trail[k-1];
      if !(Neg(t) in c && AtLevel(t, g, lv)) {
        SkipOther(c, g, lv, k);
        LearnedSound(f, c, g, lv, k - 1);
      } else if ResolvesAt(Lits(c), g, lv, t) {
        StepKeeps(Lits(c), g, lv, k);
        ResolventLits(c, g.reason[Var(t)].value, Neg(t));
        ResolventSound(f, Lits(c), Neg(t), g.reason[Var(t)].value);
        LearnedSound(f, ResolventInOrder(c, g.reason[Var(t)].value, Neg(t)), g, lv, k - 1);
      }
    }
  }

  /** It reaches the conflict level. */
  lemma {:induction false} LearnedReaches(c: Clause, g: Graph, lv: nat, k: nat)
    requires WellFormed(g) && ReasonsReach(g, lv) && k <= |g.trail|
    requires Falsified(Lits(c), g) && Before(Lits(c), g, lv, k) && Reaches(Lits(c), g, lv)
    ensures Reaches(Lits(Learned(c, g, lv, k)), g, lv)
    decreases k
  {
    hide Falsified, Before, Reaches, Justified, ReasonsReach;
    if k > 0 && |OnLevel(c, g, lv)| > 1 {
      var t := g.trail[k-1];
      if !(Neg(t) in c && AtLevel(t, g, lv)) {
        SkipOther(c, g, lv, k);
        LearnedReaches(c, g, lv, k - 1);
      } else if ResolvesAt(Lits(c), g, lv, t) {
        StepReaches(c, g, lv, k);
        LearnedReaches(ResolventInOrder(c, g.reason[Var(t)].value, Neg(t)), g, lv, k - 1);
      }
    }
  }

  /** Every literal of `c` on level `lv` denies the decision of that level. */
  ghost predicate OnlyDecision(c: Clause, g: Graph, lv: nat) {
    forall l :: l in c && AtLevel(l, g, lv) ==> Var(l) in g.reason && g.reason[Var(l)].None?
  }

  lemma DecisionIsFirst(g: Graph, i: nat, lv: nat)
    requires WellFormed(g) && i < |g.trail| && AtLevel(g.trail[i], g, lv) && g.reason[Var(g.trail[i])].None?
    ensures forall j :: 0 <= j < i ==> !AtLevel(g.trail[j], g, lv)
  {
    assert Justified(g, i);
  }

  /** Of a clause that repeats no literal, only one can deny the decision. */
  lemma OneDecision(d: Clause, g: Graph, lv: nat)
    requires WellFormed(g) && Falsified(Lits(d), g) && NoDuplicates(d) && OnlyDecision(d, g, lv)
    ensures SoleOn(d, g, lv)
  {
    hide Justified;
    forall i, j | 0 <= i < |d| && 0 <= j < |d| && AtLevel(d[i], g, lv) && AtLevel(d[j], g, lv)
      ensures d[i] == d[j]
    {
      assert d[i] in d && d[j] in d && d[i] in Lits(d) && d[j] in Lits(d);
      var p, q := g.pos[Var(d[i])], g.pos[Var(d[j])];
      assert AtLevel(g.trail[p], g, lv) && AtLevel(g.trail[q], g, lv);
      DecisionIsFirst(g, p, lv);
      DecisionIsFirst(g, q, lv);
      assert p == q;
    }
  }

  /** The clause learned has several positions on the conflict level exactly if
      the conflict clause has, and they all hold the negated decision. */
  lemma {:induction false} LearnedStops(c: Clause, g: Graph, lv: nat, k: nat)
    requires WellFormed(g) && ReasonsReach(g, lv) && k <= |g.trail|
    requires Falsified(Lits(c), g) && Before(Lits(c), g, lv, k) && Reaches(Lits(c), g, lv)
    ensures !SoleOn(Learned(c, g, lv, k), g, lv) <==> !SoleOn(c, g, lv) && OnlyDecision(c, g, lv)
    ensures !SoleOn(Learned(c, g, lv, k), g, lv) ==> Learned(c, g, lv, k) == c
    decreases k
  {
    hide Falsified, Justified, ReasonsReach, SoleOn, OnlyDecision, NoDuplicates;
    OnLevelCount(c, g, lv);
    if k > 0 && |OnLevel(c, g, lv)| > 1 {
      var t := g.trail[k-1];
      if !(Neg(t) in c && AtLevel(t, g, lv)) {
        SkipOther(c, g, lv, k);
        LearnedStops(c, g, lv, k - 1);
      } else if ResolvesAt(Lits(c), g, lv, t) {
        var d := ResolventInOrder(c, g.reason[Var(t)].value, Neg(t));
        StepReaches(c, g, lv, k);
        LearnedStops(d, g, lv, k - 1);
        if OnlyDecision(d, g, lv) {
          OneDecision(d, g, lv);
        }
        ForcedLiteral(c, g, lv, Neg(t));
      } else {
        DecisionIsLatest(c, g, lv, k);
      }
    }
  }

  lemma ForcedLiteral(c: Clause, g: Graph, lv: nat, l: Lit)
    requires l in c && AtLevel(l, g, lv) && Var(l) in g.reason && g.reason[Var(l)].Some?
    ensures !OnlyDecision(c, g, lv)
  {
  }

  lemma DecisionIsLatest(c: Clause, g: Graph, lv: nat, k: nat)
    requires WellFormed(g) && 0 < k <= |g.trail| && Falsified(Lits(c), g) && Before(Lits(c), g, lv, k)
    requires AtLevel(g.trail[k-1], g, lv) && g.reason[Var(g.trail[k-1])].None?
    ensures OnlyDecision(c, g, lv)
  {
    hide Justified;
    DecisionIsFirst(g, k - 1, lv);
    forall l | l in c && AtLevel(l, g, lv)
      ensures g.reason[Var(l)].None?
    {
      assert l in Lits(c) && AtLevel(g.trail[g.pos[Var(l)]], g, lv);
    }
  }

  lemma NotAtLast(c: Clause, g: Graph, lv: nat, k: nat)
    requires Indexed(g) && 0 < k <= |g.trail| && Before(Lits(c), g, lv, k - 1)
    ensures !(Neg(g.trail[k-1]) in c && AtLevel(g.trail[k-1], g, lv))
  {
    assert Neg(g.trail[k-1]) in c ==> Neg(g.trail[k-1]) in Lits(c);
  }

  /** Without repeated literals the clause is the reference first-UIP clause. */
  lemma {:induction false} LearnedIsFirstUip(c: Clause, g: Graph, lv: nat, k: nat)
    requires WellFormed(g) && k <= |g.trail| && NoDuplicates(c)
    requires Falsified(Lits(c), g) && Before(Lits(c), g, lv, k)
    ensures Lits(Learned(c, g, lv, k)) == FirstUip(Lits(c), g, lv, k)
    ensures NoDuplicates(Learned(c, g, lv, k))
    decreases k
  {
    hide Falsified, Justified, NoDuplicates, AtMostOne, SoleOn, Before;
    OnLevelCount(c, g, lv);
    SoleAtMostOne(c, g, lv);
    if k > 0 && |OnLevel(c, g, lv)| > 1 {
      var t := g.trail[k-1];
      if ResolvesAt(Lits(c), g, lv, t) {
        StepKeeps(Lits(c), g, lv, k);
        ResolventLits(c, g.reason[Var(t)].value, Neg(t));
        LearnedIsFirstUip(ResolventInOrder(c, g.reason[Var(t)].value, Neg(t)), g, lv, k - 1);
      } else {
        SkipKeeps(Lits(c), g, lv, k);
        NotAtLast(c, g, lv, k);
        LearnedIsFirstUip(c, g, lv, k - 1);
      }
    }
  }
}

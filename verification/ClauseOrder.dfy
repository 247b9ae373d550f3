/** The conflict analysis of the DLIS solver: it resolves on the last literal
    of the conflict level in clause order, which need not be the latest on the
    trail and may bring resolved literals back.  Read as a binary number with a
    bit per trail position, the falsified clause still decreases. */
module ClauseOrder {
  import opened Logic
  import opened Numbers
  import opened ImplicationGraph
  import opened SearchState
  import opened SearchSteps

  // ------------------------------------------------------------- the measure

  /** The sum of 2^i over the positions `i < k` whose trail literal `c` denies. */
  ghost function Weight(c: set<Lit>, trail: seq<Lit>, k: nat): nat
    requires k <= |trail|
  {
    if k == 0 then 0
    else Weight(c, trail, k - 1) + if Neg(trail[k-1]) in c then Pow2(k - 1) else 0
  }

  lemma {:induction false} WeightBound(c: set<Lit>, trail: seq<Lit>, k: nat)
    requires k <= |trail|
    ensures Weight(c, trail, k) < Pow2(k)
  {
    if k > 0 {
      WeightBound(c, trail, k - 1);
    }
  }

  /** Clearing bit `p` outweighs whatever happens to the bits below it. */
  lemma {:induction false} WeightDrops(c: set<Lit>, d: set<Lit>, trail: seq<Lit>, p: nat, k: nat)
    requires p < k <= |trail|
    requires Neg(trail[p]) in c && Neg(trail[p]) !in d
    requires forall i :: p < i < |trail| ==> (Neg(trail[i]) in c <==> Neg(trail[i]) in d)
    ensures Weight(d, trail, k) < Weight(c, trail, k)
  {
    if k - 1 == p {
      WeightBound(d, trail, p);
    } else {
      WeightDrops(c, d, trail, p, k - 1);
    }
  }

  // ------------------------------------------------------------ the analysis

  /** The literal to resolve on, and whether it has a reason to resolve with. */
  ghost predicate Resolvable(c: Clause, g: Graph, lv: nat) {
    var lits := OnLevel(c, g, lv);
    |lits| > 1 && var v := Var(lits[|lits|-1]); v in g.reason && g.reason[v].Some?
  }

  ghost function NextClause(c: Clause, g: Graph, lv: nat): Clause
    requires Resolvable(c, g, lv)
  {
    var lits := OnLevel(c, g, lv);
    var l := lits[|lits|-1];
    ResolventInOrder(c, g.reason[Var(l)].value, l)
  }

  lemma NextKeeps(c: Clause, g: Graph, lv: nat)
    requires WellFormed(g) && Falsified(Lits(c), g) && Resolvable(c, g, lv)
    ensures Falsified(Lits(NextClause(c, g, lv)), g)
    ensures Weight(Lits(NextClause(c, g, lv)), g.trail, |g.trail|) < Weight(Lits(c), g.trail, |g.trail|)
  {
    hide Justified;
    var lits := OnLevel(c, g, lv);
    var l := lits[|lits|-1];
    var r := g.reason[Var(l)].value;
    var d := NextClause(c, g, lv);
    ResolventLits(c, r, l);
    LastOnLevel(c, g, lv);
    var p := DeniedAt(l, g);
    assert Justified(g, p);
    ReasonBelow(g, p, r);
    forall x | x in Lits(d)
      ensures IsFalse(x, g)
    {
    }
    forall i | p < i < |g.trail|
      ensures Neg(g.trail[i]) in Lits(c) <==> Neg(g.trail[i]) in Lits(d)
    {
      assert g.pos[Var(g.trail[i])] == i;
    }
    WeightDrops(Lits(c), Lits(d), g.trail, p, |g.trail|);
  }

  lemma NextReaches(c: Clause, g: Graph, lv: nat)
    requires Indexed(g) && Falsified(Lits(c), g) && Resolvable(c, g, lv) && ReasonsReach(g, lv)
    ensures Reaches(Lits(NextClause(c, g, lv)), g, lv)
  {
    var lits := OnLevel(c, g, lv);
    var l := lits[|lits|-1];
    var r := g.reason[Var(l)].value;
    ResolventLits(c, r, l);
    LastOnLevel(c, g, lv);
    var p := DeniedAt(l, g);
    assert ReasonReaches(g, p, lv);
    var y :| y in r && y != g.trail[p] && AtLevel(y, g, lv);
    assert y in Lits(r);
  }

  lemma DeniedAt(l: Lit, g: Graph) returns (p: nat)
    requires Indexed(g) && IsFalse(l, g)
    ensures p < |g.trail| && g.trail[p] == Neg(l) && g.pos[Var(l)] == p
  {
    p := g.pos[Var(l)];
    assert IsTrue(g.trail[p], g);
  }

  /** The reason at position `p` denies no literal from `p` on. */
  lemma ReasonBelow(g: Graph, p: nat, r: Clause)
    requires Indexed(g) && p < |g.trail| && Justified(g, p) && g.reason[Var(g.trail[p])] == Some(r)
    ensures forall x :: x in Lits(r) && x != g.trail[p] ==> IsFalse(x, g) && g.pos[Var(x)] < p
  {
    forall x | x in Lits(r) && x != g.trail[p]
      ensures IsFalse(x, g) && g.pos[Var(x)] < p
    {
      assert x in r && FalseBefore(x, g, p, g.level[Var(g.trail[p])]);
    }
  }

  lemma LastOnLevel(c: Clause, g: Graph, lv: nat)
    requires OnLevel(c, g, lv) != []
    ensures var lits := OnLevel(c, g, lv); lits[|lits|-1] in Lits(c) && AtLevel(lits[|lits|-1], g, lv)
  {
    var lits := OnLevel(c, g, lv);
    OnLevelMembers(c, g, lv);
    assert lits[|lits|-1] in lits;
  }

  /** The literal to resolve on stands at the last position on the level. */
  lemma {:induction false} LastPosition(c: Clause, g: Graph, lv: nat) returns (i: nat)
    requires OnLevel(c, g, lv) != []
    ensures var lits := OnLevel(c, g, lv); i < |c| && c[i] == lits[|lits|-1] && AtLevel(c[i], g, lv)
    ensures forall j :: i < j < |c| ==> !AtLevel(c[j], g, lv)
  {
    i := |c| - 1;
    if !AtLevel(c[i], g, lv) {
      i := LastPosition(c[..|c|-1], g, lv);
    }
  }

  /** The clause `conflict_analysis` learns. */
  ghost function Analyzed(c: Clause, g: Graph, lv: nat): Clause
    requires WellFormed(g) && Falsified(Lits(c), g)
    decreases Weight(Lits(c), g.trail, |g.trail|)
  {
    if !Resolvable(c, g, lv) then c
    else
      NextKeeps(c, g, lv);
      Analyzed(NextClause(c, g, lv), g, lv)
  }

  /** The learned clause is implied and false, and it has several positions on the
      conflict level exactly if the last of them is the decision. */
  lemma {:induction false} AnalyzedSound(f: seq<Clause>, c: Clause, g: Graph, lv: nat)
    requires WellFormed(g) && ReasonsFrom(g, f) && Falsified(Lits(c), g) && Entails(f, Lits(c))
    ensures var u := Analyzed(c, g, lv);
      && Falsified(Lits(u), g) && Entails(f, Lits(u)) && (SoleOn(u, g, lv) <==> !StoppedAtDecision(u, g, lv))
      && (NoDuplicates(c) ==> NoDuplicates(u))
    decreases Weight(Lits(c), g.trail, |g.trail|)
  {
    hide Falsified, Entails, NoDuplicates, StoppedAtDecision, SoleOn, Justified;
    if Resolvable(c, g, lv) {
      var lits := OnLevel(c, g, lv);
      var l := lits[|lits|-1];
      var r := g.reason[Var(l)].value;
      NextKeeps(c, g, lv);
      ResolventSound(f, Lits(c), l, r);
      ResolventLits(c, r, l);
      AnalyzedSound(f, NextClause(c, g, lv), g, lv);
    } else {
      SoleUnlessStopped(c, g, lv);
    }
  }

  /** It reaches the conflict level. */
  lemma {:induction false} AnalyzedReaches(c: Clause, g: Graph, lv: nat)
    requires WellFormed(g) && ReasonsReach(g, lv) && Falsified(Lits(c), g) && Reaches(Lits(c), g, lv)
    ensures Reaches(Lits(Analyzed(c, g, lv)), g, lv)
    decreases Weight(Lits(c), g.trail, |g.trail|)
  {
    hide Falsified, Reaches, ReasonsReach, Justified;
    if Resolvable(c, g, lv) {
      NextKeeps(c, g, lv);
      NextReaches(c, g, lv);
      AnalyzedReaches(NextClause(c, g, lv), g, lv);
    }
  }

  /** Where the analysis broke off although the clause is not asserting. */
  ghost predicate StoppedAtDecision(u: Clause, g: Graph, lv: nat) {
    var lits := OnLevel(u, g, lv);
    |lits| > 1 && var v := Var(lits[|lits|-1]); v in g.reason && g.reason[v].None?
  }

  lemma SoleUnlessStopped(u: Clause, g: Graph, lv: nat)
    requires Indexed(g) && Falsified(Lits(u), g) && !Resolvable(u, g, lv)
    ensures SoleOn(u, g, lv) <==> !StoppedAtDecision(u, g, lv)
  {
    OnLevelCount(u, g, lv);
    if |OnLevel(u, g, lv)| > 1 {
      LastOnLevel(u, g, lv);
    }
  }
}

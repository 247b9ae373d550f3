/** CaDiCaL's conflict analysis: the first-UIP clause computed with `seen` flags,
    an `open` counter and one backward scan of the trail, proved to be the
    resolution-based `FirstUip` without its root-level literals. */
module Analyze {
  import opened Logic
  import opened ImplicationGraph

  /** The literals of `c` that are not fixed on the root level. */
  ghost function NonRoot(c: set<Lit>, g: Graph): set<Lit> {
    set l | l in c && !AtLevel(l, g, 0)
  }

  ghost function OnLevel(c: set<Lit>, g: Graph, lv: nat): set<Lit> {
    set l | l in c && AtLevel(l, g, lv)
  }

  ghost function OpenCount(c: set<Lit>, g: Graph, lv: nat): nat {
    |OnLevel(c, g, lv)|
  }

  /** `clause` lists the literals of `c` between the root and level `lv`. */
  ghost predicate Collects(clause: Clause, c: set<Lit>, g: Graph, lv: nat) {
    && NoDuplicates(clause)
    && (forall l :: l in clause <==> l in c && !AtLevel(l, g, 0) && !AtLevel(l, g, lv))
  }

  /** The literals of `c` are seen, and on level `lv`, before `i`, no others. */
  ghost predicate Sees(seen: set<int>, c: set<Lit>, g: Graph, lv: nat, i: nat) {
    && (forall l :: l in c && !AtLevel(l, g, 0) ==> Var(l) in seen)
    && (forall v :: v in seen ==> v in g.pos && v in g.value && v in g.level && g.level[v] > 0)
    && (forall l :: Var(l) in seen && IsFalse(l, g) && (g.level[Var(l)] == lv ==> g.pos[Var(l)] < i) ==> l in c)
  }

  /** How the fields of the analysis stand for the resolvent `c`, of which the
      literals on level `lv` with trail position below `i` are still open. */
  ghost predicate Represents(clause: Clause, seen: set<int>, open: int, c: set<Lit>, g: Graph, lv: nat, i: nat) {
    Collects(clause, c, g, lv) && open == OpenCount(c, g, lv) && Sees(seen, c, g, lv, i)
  }

  /** Every root-level literal has a reason. */
  ghost predicate NoRootDecision(g: Graph) {
    forall v :: v in g.reason && v in g.level && g.reason[v].None? ==> g.level[v] > 0
  }

  /** A root-level literal of the trail is true in every model. */
  lemma {:induction false} RootLiteral(f: seq<Clause>, g: Graph, i: nat, m: Model)
    requires WellFormed(g) && ReasonsFrom(g, f) && NoRootDecision(g) && SatAll(f, m)
    requires i < |g.trail| && AtLevel(g.trail[i], g, 0)
    ensures True(g.trail[i], m)
  {
    var t := g.trail[i];
    assert Justified(g, i);
    var c := g.reason[Var(t)].value;
    assert SatClause(c, m);
    var l :| l in c && True(l, m);
    if l != t {
      assert FalseBefore(l, g, i, g.level[Var(t)]);
      RootLiteral(f, g, g.pos[Var(l)], m);
    }
  }

  lemma NonRootEntailed(f: seq<Clause>, u: set<Lit>, g: Graph)
    requires WellFormed(g) && ReasonsFrom(g, f) && NoRootDecision(g)
    requires Entails(f, u) && Falsified(u, g)
    ensures Entails(f, NonRoot(u, g))
  {
    forall m: Model | SatAll(f, m)
      ensures SatLits(NonRoot(u, g), m)
    {
      var l :| l in u && True(l, m);
      if AtLevel(l, g, 0) {
        RootLiteral(f, g, g.pos[Var(l)], m);
      }
      assert l in NonRoot(u, g);
    }
  }

  lemma LearnedClauseShape(c: set<Lit>, g: Graph, lv: nat)
    requires WellFormed(g) && Falsified(c, g) && Before(c, g, lv, |g.trail|) && Reaches(c, g, lv)
    ensures var u := NonRoot(FirstUip(c, g, lv, |g.trail|), g); Falsified(u, g) && AtMostOne(u, g, lv)
  {
    hide WellFormed, Before, Reaches, FirstUip;
    FirstUipShape(c, g, lv, |g.trail|);
  }

  /** The clause that is learned follows from the clauses of the solver. */
  lemma LearnedClauseEntailed(f: seq<Clause>, c: set<Lit>, g: Graph, lv: nat)
    requires WellFormed(g) && Falsified(c, g) && Before(c, g, lv, |g.trail|) && Reaches(c, g, lv)
    requires ReasonsFrom(g, f) && NoRootDecision(g) && Entails(f, c)
    ensures Entails(f, NonRoot(FirstUip(c, g, lv, |g.trail|), g))
  {
    hide WellFormed, Before, Reaches, Entails, FirstUip, Falsified;
    FirstUipShape(c, g, lv, |g.trail|);
    FirstUipEntailed(f, c, g, lv, |g.trail|);
    NonRootEntailed(f, FirstUip(c, g, lv, |g.trail|), g);
  }

  class Analyzer {
    const g: Graph
    const level: nat
    var seen: set<int>
    var analyzed: seq<Lit>
    var clause: Clause

    constructor (g: Graph, level: nat)
      ensures this.g == g && this.level == level
      ensures seen == {} && analyzed == [] && clause == []
    {
      this.g := g;
      this.level := level;
      seen, analyzed, clause := {}, [], [];
    }

    /** The literals listed in `analyzed` are exactly the seen ones. */
    ghost predicate Flagged()
      reads this
    {
      seen == ClauseVars(analyzed)
    }

    /** `c` is the resolvent so far; seeing `lit` adds it. */
    method AnalyzeLiteral(lit: Lit, open0: nat, resolventSize0: nat, ghost c: set<Lit>, ghost i: nat)
      returns (open: nat, resolventSize: nat)
      requires Indexed(g) && level > 0
      requires Represents(clause, seen, open0, c, g, level, i) && Flagged()
      requires resolventSize0 == open0 + |clause|
      requires FalseBefore(lit, g, i, level)
      modifies this
      ensures Represents(clause, seen, open, c + {lit}, g, level, i) && Flagged()
      ensures resolventSize == open + |clause|
    {
      hide Represents, Indexed, NoDuplicates;
      open, resolventSize := open0, resolventSize0;
      SeeLiteral(clause, seen, open0, c, g, level, i, lit);
      FlagLiteral(analyzed, seen, lit);
      var l := g.level[Var(lit)];
      if l == 0 {
        return;
      }
      if Var(lit) in seen {
        return;
      }
      seen := seen + {Var(lit)};
      analyzed := analyzed + [lit];
      if l < level {
        clause := clause + [lit];
      }
      resolventSize := resolventSize + 1;
      if l == level {
        open := open + 1;
      }
    }

    /** See the literals of `reason` other than the resolved one. */
    method AnalyzeReason(lit: Option<Lit>, reason: Clause, open0: nat, resolventSize0: nat, ghost c: set<Lit>,
          ghost i: nat)
      returns (open: nat, resolventSize: nat)
      requires Indexed(g) && level > 0
      requires Represents(clause, seen, open0, c, g, level, i) && Flagged()
      requires resolventSize0 == open0 + |clause|
      requires forall l :: l in reason && lit != Some(l) ==> FalseBefore(l, g, i, level)
      modifies this
      ensures Represents(clause, seen, open, c + Others(reason, lit), g, level, i) && Flagged()
      ensures resolventSize == open + |clause|
    {
      hide Represents, Indexed;
      open, resolventSize := open0, resolventSize0;
      assert c + Others([], lit) == c;
      for k := 0 to |reason|
        invariant Represents(clause, seen, open, c + Others(reason[..k], lit), g, level, i) && Flagged()
        invariant resolventSize == open + |clause|
      {
        OthersOfPrefix(reason, lit, k);
        if lit != Some(reason[k]) {
          open, resolventSize := AnalyzeLiteral(reason[k], open, resolventSize, c + Others(reason[..k], lit), i);
          assert c + Others(reason[..k], lit) + {reason[k]} == c + Others(reason[..k+1], lit);
        }
      }
      assert reason[..|reason|] == reason;
    }

    /** The first-UIP clause without root-level literals, with the asserting
        literal last.  It is false, has one literal on the conflict level, and
        follows from `f` if the conflict and the reasons are from `f`. */
    method Analyze(conflict: Clause, ghost f: seq<Clause>) returns (uip: Lit)
      requires WellFormed(g) && level > 0 && seen == {} && analyzed == [] && clause == []
      requires forall v :: v in g.level ==> g.level[v] <= level
      requires Falsified(Lits(conflict), g) && Reaches(Lits(conflict), g, level)
      modifies this
      ensures Lits(clause) == NonRoot(FirstUip(Lits(conflict), g, level, |g.trail|), g)
      ensures NoDuplicates(clause) && clause != [] && clause[|clause| - 1] == Neg(uip) && AtLevel(uip, g, level)
      ensures Falsified(Lits(clause), g) && AtMostOne(Lits(clause), g, level)
      ensures ReasonsFrom(g, f) && NoRootDecision(g) && Entails(f, Lits(conflict)) ==> Entails(f, Lits(clause))
    {
      hide Represents, Indexed, Justified, FirstUip, Before, Falsified, Reaches, NoDuplicates, NonRoot, AtMostOne,
           Entails,
           ReasonsFrom, NoRootDecision;
      ghost var target := FirstUip(Lits(conflict), g, level, |g.trail|);
      ghost var c: set<Lit> := {};
      var reason, resolved: Option<Lit> := conflict, None;
      var i, open: nat, resolventSize: nat := |g.trail|, 0, 0;
      StartAnalysis(conflict, g, level);
      uip := 1;
      while true
        invariant 0 <= i <= |g.trail|
        invariant Represents(clause, seen, open, c, g, level, i) && Flagged()
        invariant resolventSize == open + |clause|
        invariant forall l :: l in reason && resolved != Some(l) ==> FalseBefore(l, g, i, level)
        invariant var r := c + Others(reason, resolved);
                  && FirstUip(r, g, level, i) == target
                  && Falsified(r, g) && Before(r, g, level, i) && Reaches(r, g, level)
        decreases i
      {
        open, resolventSize := AnalyzeReason(resolved, reason, open, resolventSize, c, i);
        c := c + Others(reason, resolved);
        ghost var top := i;
        i := NextSeen(c, open, i);
        uip := g.trail[i];
        ReachUip(clause, seen, open, c, g, level, i, top);
        open := open - 1;
        if open == 0 {
          FinishAnalysis(clause, seen, c, g, level, i, top);
          break;
        }
        ContinueAnalysis(clause, seen, open, c, g, level, i, top);
        reason := g.reason[Var(uip)].value;
        c := c - {Neg(uip)};
        resolved := Some(uip);
        resolventSize := resolventSize - 1;
      }
      clause := clause + [Neg(uip)];
      LearnedClauseShape(Lits(conflict), g, level);
      if ReasonsFrom(g, f) && NoRootDecision(g) && Entails(f, Lits(conflict)) {
        LearnedClauseEntailed(f, Lits(conflict), g, level);
      }
    }

    /** Scan the trail backward for a seen literal of the conflict level. */
    method NextSeen(ghost c: set<Lit>, ghost open: nat, top: nat) returns (i: nat)
      requires Indexed(g) && top <= |g.trail| && Represents(clause, seen, open, c, g, level, top)
      requires level > 0 && Before(c, g, level, top) && Falsified(c, g) && Reaches(c, g, level)
      ensures i < top && Var(g.trail[i]) in seen && AtLevel(g.trail[i], g, level)
      ensures forall j :: i < j < top ==> !(Neg(g.trail[j]) in c && AtLevel(g.trail[j], g, level))
    {
      ghost var x :| x in c && AtLevel(x, g, level);
      i := top;
      while true
        invariant g.pos[Var(x)] < i <= top
        invariant forall j :: i <= j < top ==> !(Neg(g.trail[j]) in c && AtLevel(g.trail[j], g, level))
        decreases i
      {
        i := i - 1;
        if Var(g.trail[i]) in seen && g.level[Var(g.trail[i])] == level {
          return;
        }
      }
    }
  }

  ghost function Others(reason: Clause, lit: Option<Lit>): set<Lit> {
    set l | l in reason && lit != Some(l)
  }

  lemma OthersOfPrefix(reason: Clause, lit: Option<Lit>, k: nat)
    requires k < |reason|
    ensures Others(reason[..k+1], lit) ==
      if lit != Some(reason[k]) then Others(reason[..k], lit) + {reason[k]} else Others(reason[..k], lit)
  {
    assert reason[..k+1] == reason[..k] + [reason[k]];
    forall l
      ensures l in Others(reason[..k+1], lit) <==> l in reason[..k+1] && lit != Some(l)
    {
    }
  }

  lemma StartAnalysis(conflict: Clause, g: Graph, lv: nat)
    requires Indexed(g) && Falsified(Lits(conflict), g) && forall v :: v in g.level ==> g.level[v] <= lv
    ensures Represents([], {}, 0, {}, g, lv, |g.trail|)
    ensures forall l :: l in conflict ==> FalseBefore(l, g, |g.trail|, lv)
    ensures {} + Others(conflict, None) == Lits(conflict)
    ensures Before(Lits(conflict), g, lv, |g.trail|)
  {
    assert OnLevel({}, g, lv) == {};
    assert forall l :: l in conflict ==> l in Lits(conflict);
    assert Others(conflict, None) == Lits(conflict);
  }

  /** The scan stops at the latest open literal of the resolvent. */
  lemma ReachUip(clause: Clause, seen: set<int>, open: nat, c: set<Lit>, g: Graph, lv: nat, i: nat, top: nat)
    requires Indexed(g) && i < top <= |g.trail| && Represents(clause, seen, open, c, g, lv, top)
    requires Var(g.trail[i]) in seen && AtLevel(g.trail[i], g, lv)
    ensures Neg(g.trail[i]) in c && open >= 1
  {
    assert Neg(g.trail[i]) in OnLevel(c, g, lv);
  }

  lemma TwoOnLevel(c: set<Lit>, g: Graph, lv: nat, l: Lit)
    requires l in c && AtLevel(l, g, lv)
    ensures |OnLevel(c, g, lv)| <= 1 <==> AtMostOne(c, g, lv)
  {
    var s := OnLevel(c, g, lv);
    assert s == {l} + (s - {l});
    if |s| <= 1 {
      assert s - {l} == {};
      forall x, y | x in c && y in c && AtLevel(x, g, lv) && AtLevel(y, g, lv)
        ensures x == y
      {
        assert x in s && y in s;
      }
    } else {
      var x :| x in s - {l};
      assert x in c && AtLevel(x, g, lv);
    }
  }

  lemma FlagLiteral(analyzed: seq<Lit>, seen: set<int>, l: Lit)
    ensures ClauseVars(analyzed + [l]) == ClauseVars(analyzed) + {Var(l)}
  {
    ClauseVarsOfPrefix(analyzed + [l], |analyzed|);
    assert (analyzed + [l])[..|analyzed|] == analyzed && (analyzed + [l])[..|analyzed| + 1] == analyzed + [l];
  }

  /** The state after one call of `analyze_literal` represents one literal more. */
  lemma SeeLiteral(clause: Clause, seen: set<int>, open: nat, c: set<Lit>, g: Graph, lv: nat, i: nat, l: Lit)
    requires Indexed(g) && lv > 0
    requires Represents(clause, seen, open, c, g, lv, i)
    requires FalseBefore(l, g, i, lv)
    ensures g.level[Var(l)] == 0 || Var(l) in seen ==> Represents(clause, seen, open, c + {l}, g, lv, i)
    ensures g.level[Var(l)] > 0 && Var(l) !in seen ==>
      var here := g.level[Var(l)] == lv;
      Represents(if here then clause else clause + [l], seen + {Var(l)},
                 if here then open + 1 else open, c + {l}, g, lv, i)
  {
    AddOnLevel(c, l, g, lv);
    if g.level[Var(l)] > 0 {
      if Var(l) in seen {
        assert c + {l} == c;
      } else {
        assert l !in OnLevel(c, g, lv);
        NewLiteral(clause, seen, open, c, g, lv, i, l);
      }
    }
  }

  lemma NewLiteral(clause: Clause, seen: set<int>, open: nat, c: set<Lit>, g: Graph, lv: nat, i: nat, l: Lit)
    requires Indexed(g) && lv > 0
    requires Represents(clause, seen, open, c, g, lv, i)
    requires FalseBefore(l, g, i, lv) && g.level[Var(l)] > 0 && Var(l) !in seen
    ensures var here := g.level[Var(l)] == lv;
      Represents(if here then clause else clause + [l], seen + {Var(l)},
                 if here then open + 1 else open, c + {l}, g, lv, i)
  {
    hide Indexed, Collects, OpenCount, Sees;
    NewSeen(seen, c, g, lv, i, l);
    NewCount(c, g, lv, l);
    NewCollected(clause, c, g, lv, l);
  }

  lemma NewSeen(seen: set<int>, c: set<Lit>, g: Graph, lv: nat, i: nat, l: Lit)
    requires Sees(seen, c, g, lv, i) && FalseBefore(l, g, i, lv) && g.level[Var(l)] > 0 && Var(l) !in seen
    ensures Sees(seen + {Var(l)}, c + {l}, g, lv, i) && l !in c
  {
    var d, s := c + {l}, seen + {Var(l)};
    forall k | Var(k) in s && IsFalse(k, g) && (g.level[Var(k)] == lv ==> g.pos[Var(k)] < i)
      ensures k in d
    {
      if Var(k) == Var(l) {
        assert k == l;
      }
    }
  }

  lemma NewCount(c: set<Lit>, g: Graph, lv: nat, l: Lit)
    requires l !in c
    ensures OpenCount(c + {l}, g, lv) == OpenCount(c, g, lv) + if AtLevel(l, g, lv) then 1 else 0
  {
    AddOnLevel(c, l, g, lv);
  }

  lemma NewCollected(clause: Clause, c: set<Lit>, g: Graph, lv: nat, l: Lit)
    requires Collects(clause, c, g, lv) && l !in c && Var(l) in g.level && g.level[Var(l)] > 0
    ensures Collects(if AtLevel(l, g, lv) then clause else clause + [l], c + {l}, g, lv)
  {
    assert l !in clause;
  }

  lemma AddOnLevel(c: set<Lit>, l: Lit, g: Graph, lv: nat)
    ensures OnLevel(c + {l}, g, lv) == if AtLevel(l, g, lv) then OnLevel(c, g, lv) + {l} else OnLevel(c, g, lv)
  {
  }

  /** With more open literals, resolving on `g.trail[i]` is the next step of the
      reference analysis, and the fields follow it. */
  lemma ContinueAnalysis(clause: Clause, seen: set<int>, open: nat, c: set<Lit>, g: Graph, lv: nat, i: nat, top: nat)
    requires WellFormed(g) && i < top <= |g.trail| && open >= 1
    requires Represents(clause, seen, open + 1, c, g, lv, top)
    requires Falsified(c, g) && Before(c, g, lv, top)
    requires Neg(g.trail[i]) in c && AtLevel(g.trail[i], g, lv)
    requires forall j :: i < j < top ==> !(Neg(g.trail[j]) in c && AtLevel(g.trail[j], g, lv))
    ensures ResolvesAt(c, g, lv, g.trail[i])
    ensures Represents(clause, seen, open, c - {Neg(g.trail[i])}, g, lv, i)
    ensures var t := g.trail[i];
            var reason := g.reason[Var(t)].value;
            var r := (c - {Neg(t)}) + Others(reason, Some(t));
            && (forall l :: l in reason && l != t ==> FalseBefore(l, g, i, lv))
            && Falsified(r, g) && Before(r, g, lv, i) && Reaches(r, g, lv)
            && FirstUip(r, g, lv, i) == FirstUip(c, g, lv, top)
  {
    hide FirstUip, AtMostOne, Reaches;
    var t := g.trail[i];
    TwoOnLevel(c, g, lv, Neg(t));
    LatestIsResolvable(c, g, lv, i, top);
    var reason := g.reason[Var(t)].value;
    assert Justified(g, i);
    assert (c - {Neg(t)}) + Others(reason, Some(t)) == ResolveAt(c, g, t) by {
      assert Others(reason, Some(t)) == Lits(reason) - {t};
    }
    DropUip(clause, seen, open, c, g, lv, i, top);
  }

  lemma DropUip(clause: Clause, seen: set<int>, open: nat, c: set<Lit>, g: Graph, lv: nat, i: nat, top: nat)
    requires Indexed(g) && i < top <= |g.trail|
    requires Represents(clause, seen, open + 1, c, g, lv, top)
    requires Falsified(c, g) && Before(c, g, lv, top)
    requires Neg(g.trail[i]) in c && AtLevel(g.trail[i], g, lv)
    ensures Represents(clause, seen, open, c - {Neg(g.trail[i])}, g, lv, i)
  {
    hide OpenCount, Sees;
    var d := c - {Neg(g.trail[i])};
    NewCount(d, g, lv, Neg(g.trail[i]));
    assert d + {Neg(g.trail[i])} == c;
    DropSeen(seen, c, g, lv, i, top);
  }

  lemma DropSeen(seen: set<int>, c: set<Lit>, g: Graph, lv: nat, i: nat, top: nat)
    requires Indexed(g) && i < top <= |g.trail| && Sees(seen, c, g, lv, top)
    requires Neg(g.trail[i]) in c && AtLevel(g.trail[i], g, lv)
    ensures Sees(seen, c - {Neg(g.trail[i])}, g, lv, i)
  {
  }

  /** With no other open literal, the resolvent is the first-UIP clause. */
  lemma FinishAnalysis(clause: Clause, seen: set<int>, c: set<Lit>, g: Graph, lv: nat, i: nat, top: nat)
    requires Indexed(g) && i < top <= |g.trail| && lv > 0
    requires Represents(clause, seen, 1, c, g, lv, top)
    requires Neg(g.trail[i]) in c && AtLevel(g.trail[i], g, lv)
    ensures FirstUip(c, g, lv, top) == c
    ensures Lits(clause + [Neg(g.trail[i])]) == NonRoot(c, g) && NoDuplicates(clause + [Neg(g.trail[i])])
  {
    hide Indexed;
    var u := Neg(g.trail[i]);
    TwoOnLevel(c, g, lv, u);
    LitsAppend(clause, u);
    forall l
      ensures l in Lits(clause) + {u} <==> l in NonRoot(c, g)
    {
    }
  }
}

/** Equivalent literal substitution: one round of `decompose`. */
module Decompose {
  import opened Logic
  import opened Reconstruction
  import opened Clauses
  import opened Watching
  import opened Digraph
  import opened Tarjan
  import opened Components
  import opened Substitution
  import opened ClauseFates

  /** Watched binary clauses are in the formula. */
  ghost predicate BinaryLive(watches: WatchLists, garbage: set<nat>) {
    forall l, i :: l in watches && 0 <= i < |watches[l]| && watches[l][i].size == 2 ==> watches[l][i].clause !in garbage
  }

  /** An edge comes from a binary clause that is watched by both of its literals. */
  lemma EdgeClause(literals: map<nat, Clause>, garbage: set<nat>, watches: WatchLists, active: set<int>, a: Lit, b: Lit)
    returns (r: nat)
    requires Watched(literals, garbage, watches) && BinaryLive(watches, garbage) && Edge(GraphOf(watches, active), a, b)
    ensures r in literals && r !in garbage && |literals[r]| == 2 && Lits(literals[r]) == {Neg(a), b}
    ensures Neg(a) in literals[r] && b in literals[r]
    ensures Var(a) in active && Var(b) in active
    ensures literals[r][0] == Neg(a) ==> literals[r][1] == b
    ensures literals[r][0] != Neg(a) ==> literals[r][0] == b && literals[r][1] == Neg(a)
  {
    EdgeOf(watches, active, a, b);
    var k := ChildOf(watches, active, a, b);
    var w := watches[Neg(a)][k];
    assert WatchOf(w, Neg(a), literals);
    r := w.clause;
    var c := literals[r];
    assert c == [c[0], c[1]];
    forall l
      ensures l in Lits(c) <==> l in {Neg(a), b}
    {
    }
  }

  lemma EdgeFromClause(literals: map<nat, Clause>, garbage: set<nat>, watches: WatchLists, active: set<int>, r: nat,
        x: Lit, y: Lit)
    requires Watched(literals, garbage, watches) && r in literals && r !in garbage && |literals[r]| == 2
    requires (literals[r][0] == x && literals[r][1] == y) || (literals[r][0] == y && literals[r][1] == x)
    requires Var(x) in active && Var(y) in active
    ensures Edge(GraphOf(watches, active), Neg(x), y)
  {
    var c := literals[r];
    assert WatchedClause(r, c, watches);
    assert x in watches && Has(watches[x], r);
    var i :| 0 <= i < |watches[x]| && watches[x][i].clause == r;
    assert WatchOf(watches[x][i], x, literals);
    assert Neg(Neg(x)) == x;
    ChildAt(watches, active, Neg(x), i);
  }

  lemma GraphIsSkew(literals: map<nat, Clause>, garbage: set<nat>, watches: WatchLists, active: set<int>)
    requires Watched(literals, garbage, watches) && BinaryLive(watches, garbage)
    ensures Skew(GraphOf(watches, active))
  {
    hide Watched, BinaryLive, Edge, GraphOf;
    var g := GraphOf(watches, active);
    forall a: Lit, b: Lit | Edge(g, a, b)
      ensures Edge(g, Neg(b), Neg(a))
    {
      var r := EdgeClause(literals, garbage, watches, active, a, b);
      EdgeFromClause(literals, garbage, watches, active, r, b, Neg(a));
    }
  }

  lemma ModelsEdges(literals: map<nat, Clause>, garbage: set<nat>, watches: WatchLists, active: set<int>, m: Model)
    requires Watched(literals, garbage, watches) && BinaryLive(watches, garbage) && Models(m, Live(literals, garbage))
    ensures EdgesHold(GraphOf(watches, active), m)
  {
    hide Watched, BinaryLive, Edge, GraphOf;
    var g := GraphOf(watches, active);
    forall a, b | Edge(g, a, b) && True(a, m)
      ensures True(b, m)
    {
      var r := EdgeClause(literals, garbage, watches, active, a, b);
      assert Lits(literals[r]) in Live(literals, garbage);
      var l :| l in {Neg(a), b} && True(l, m);
    }
  }

  // ------------------------------------------------------------- clause database

  /** All clauses, redundant ones included. */
  ghost function All(s: Database): Formula {
    FormulaOf(s.literals, s.garbage, s.vals, s.unsat)
  }

  ghost function Irredundant(s: Database): Formula {
    FormulaOf(s.literals, s.garbage + s.redundant, s.vals, s.unsat)
  }

  /** Redundant clauses are implied by the others. */
  ghost predicate Sound(s: Database) {
    forall m: Model :: Models(m, Irredundant(s)) ==> Models(m, All(s))
  }

  ghost predicate Positive(vals: map<int, bool>) {
    forall v :: v in vals ==> v > 0
  }

  /** What a rewriting step keeps, for assignments that respect the representatives:
      exactly the models of all clauses, and no new models of the irredundant ones. */
  ghost predicate Rewrites(s: Database, t: Database, reprs: map<Lit, Lit>) {
    && Extends(s.vals, t.vals)
    && forall m: Model :: Respects(m, reprs) ==>
      && (Models(m, All(s)) <==> Models(m, All(t)))
      && (Models(m, Irredundant(t)) ==> Models(m, Irredundant(s)))
  }

  lemma RewritesNothing(s: Database, reprs: map<Lit, Lit>)
    ensures Rewrites(s, s, reprs)
  {
  }

  lemma RewritesTrans(s: Database, t: Database, u: Database, reprs: map<Lit, Lit>)
    requires Rewrites(s, t, reprs) && Rewrites(t, u, reprs)
    ensures Rewrites(s, u, reprs)
  {
    hide All, Irredundant, Respects;
    forall m: Model | Respects(m, reprs)
      ensures Models(m, All(s)) <==> Models(m, All(u))
      ensures Models(m, Irredundant(u)) ==> Models(m, Irredundant(s))
    {
      assert Models(m, All(s)) <==> Models(m, All(t));
      assert Models(m, Irredundant(t)) ==> Models(m, Irredundant(s));
    }
  }

  /** A model of the formula satisfies its clauses and units. */
  lemma ModelParts(literals: map<nat, Clause>, out: set<nat>, vals: map<int, bool>, unsat: bool, m: Model)
    requires Positive(vals)
    ensures Models(m, FormulaOf(literals, out, vals, unsat)) <==>
      && !unsat && Agrees(m, vals) && forall r :: r in literals && r !in out ==> SatClause(literals[r], m)
  {
    var f := FormulaOf(literals, out, vals, unsat);
    AgreesUnits(m, vals);
    forall r | r in literals
      ensures SatLits(Lits(literals[r]), m) <==> SatClause(literals[r], m)
    {
      SatLitsOfClause(literals[r], m);
    }
    if Models(m, f) {
      forall r | r in literals && r !in out
        ensures SatClause(literals[r], m)
      {
        assert Lits(literals[r]) in f;
      }
      assert unsat ==> {} in f;
    }
    assert Units(vals) <= f && Live(literals, out) <= f;
  }

  /** A clause that is satisfied whenever representatives are respected is dropped. */
  lemma DropRewrites(s: Database, reprs: map<Lit, Lit>, c: nat)
    requires c in s.literals && Positive(s.vals)
    requires forall m: Model :: Respects(m, reprs) && Agrees(m, s.vals) ==> SatClause(s.literals[c], m)
    ensures Rewrites(s, s.(garbage := s.garbage + {c}), reprs)
  {
    hide FormulaOf, Respects, Agrees, SatClause;
    var t := s.(garbage := s.garbage + {c});
    forall m: Model | Respects(m, reprs)
      ensures Models(m, All(s)) <==> Models(m, All(t))
      ensures Models(m, Irredundant(t)) ==> Models(m, Irredundant(s))
    {
      ModelParts(s.literals, s.garbage, s.vals, s.unsat, m);
      ModelParts(t.literals, t.garbage, t.vals, t.unsat, m);
      ModelParts(s.literals, s.garbage + s.redundant, s.vals, s.unsat, m);
      ModelParts(t.literals, t.garbage + t.redundant, t.vals, t.unsat, m);
    }
  }

  /** The same meaning as `c`, for assignments that respect representatives. */
  ghost predicate SameMeaning(c: Clause, d: Clause, vals: map<int, bool>, reprs: map<Lit, Lit>) {
    forall m: Model :: Respects(m, reprs) && Agrees(m, vals) ==> (SatClause(c, m) <==> SatClause(d, m))
  }

  lemma EmptyRewrites(s: Database, reprs: map<Lit, Lit>, c: nat)
    requires c in s.literals && c !in s.garbage && Positive(s.vals) && SameMeaning(s.literals[c], [], s.vals, reprs)
    ensures Rewrites(s, s.(unsat := true), reprs)
  {
    hide FormulaOf, Respects, Agrees, SatClause;
    var t := s.(unsat := true);
    forall m: Model | Respects(m, reprs)
      ensures !Models(m, All(s)) && !Models(m, All(t)) && !Models(m, Irredundant(t))
    {
      ModelParts(s.literals, s.garbage, s.vals, s.unsat, m);
      ModelParts(t.literals, t.garbage, t.vals, t.unsat, m);
      ModelParts(t.literals, t.garbage + t.redundant, t.vals, t.unsat, m);
      EmptyClause(m);
    }
  }

  lemma EmptyClause(m: Model)
    ensures !SatClause([], m)
  {
  }

  lemma UnitRewrites(s: Database, reprs: map<Lit, Lit>, c: nat, l: Lit)
    requires c in s.literals && c !in s.garbage && Positive(s.vals) && SameMeaning(s.literals[c], [l], s.vals, reprs)
    requires Val(l, s.vals) == 0
    ensures Rewrites(s, s.(garbage := s.garbage + {c}, vals := s.vals[Var(l) := l > 0]), reprs)
  {
    hide FormulaOf, Respects, SatClause;
    var t := s.(garbage := s.garbage + {c}, vals := s.vals[Var(l) := l > 0]);
    forall m: Model | Respects(m, reprs)
      ensures Models(m, All(s)) <==> Models(m, All(t))
      ensures Models(m, Irredundant(t)) ==> Models(m, Irredundant(s))
    {
      ModelParts(s.literals, s.garbage, s.vals, s.unsat, m);
      ModelParts(t.literals, t.garbage, t.vals, t.unsat, m);
      ModelParts(s.literals, s.garbage + s.redundant, s.vals, s.unsat, m);
      ModelParts(t.literals, t.garbage + t.redundant, t.vals, t.unsat, m);
      OneLiteral(l, m);
      UnitAgrees(m, s.vals, l);
    }
  }

  lemma OneLiteral(l: Lit, m: Model)
    ensures SatClause([l], m) <==> True(l, m)
  {
    assert l in [l];
  }

  lemma UnitAgrees(m: Model, vals: map<int, bool>, l: Lit)
    requires Val(l, vals) == 0
    ensures Agrees(m, vals[Var(l) := l > 0]) <==> Agrees(m, vals) && True(l, m)
  {
    var now := vals[Var(l) := l > 0];
    if Agrees(m, now) {
      forall v | v in vals
        ensures (v in m) == vals[v]
      {
        assert v in now && now[v] == vals[v];
      }
      assert Var(l) in now;
    }
  }

  lemma ReplaceRewrites(s: Database, reprs: map<Lit, Lit>, c: nat, d: nat, clause: Clause)
    requires c in s.literals && c !in s.garbage && Positive(s.vals) && SameMeaning(s.literals[c], clause, s.vals, reprs)
    requires d !in s.literals && d !in s.garbage && d !in s.redundant
    ensures Rewrites(s, Replaced(s, c, d, clause), reprs)
  {
    hide FormulaOf, Respects, SatClause, Agrees;
    var t := Replaced(s, c, d, clause);
    forall m: Model | Respects(m, reprs)
      ensures Models(m, All(s)) <==> Models(m, All(t))
      ensures Models(m, Irredundant(t)) ==> Models(m, Irredundant(s))
    {
      ModelParts(s.literals, s.garbage, s.vals, s.unsat, m);
      ModelParts(t.literals, t.garbage, t.vals, t.unsat, m);
      ModelParts(s.literals, s.garbage + s.redundant, s.vals, s.unsat, m);
      ModelParts(t.literals, t.garbage + t.redundant, t.vals, t.unsat, m);
      assert t.literals[d] == clause;
      assert forall r :: r in s.literals ==> r in t.literals && t.literals[r] == s.literals[r];
    }
  }

  lemma ShrinkRewrites(s: Database, reprs: map<Lit, Lit>, c: nat, clause: Clause)
    requires c in s.literals && Positive(s.vals) && SameMeaning(s.literals[c], clause, s.vals, reprs)
    ensures Rewrites(s, s.(literals := s.literals[c := clause]), reprs)
  {
    hide FormulaOf, Respects, SatClause, Agrees;
    var t := s.(literals := s.literals[c := clause]);
    forall m: Model | Respects(m, reprs)
      ensures Models(m, All(s)) <==> Models(m, All(t))
      ensures Models(m, Irredundant(t)) ==> Models(m, Irredundant(s))
    {
      ModelParts(s.literals, s.garbage, s.vals, s.unsat, m);
      ModelParts(t.literals, t.garbage, t.vals, t.unsat, m);
      ModelParts(s.literals, s.garbage + s.redundant, s.vals, s.unsat, m);
      ModelParts(t.literals, t.garbage + t.redundant, t.vals, t.unsat, m);
      assert t.literals[c] == clause;
      assert forall r :: r in s.literals && r != c ==> r in t.literals && t.literals[r] == s.literals[r];
    }
  }

  // ------------------------------------------------------------------ invariants

  /** References are fresh from `next` on, clauses have two literals or more, over
      active or assigned variables. */
  ghost predicate Wellformed(s: Database, clauses: seq<nat>, next: nat, active: set<int>, maxVar: nat) {
    && Positive(s.vals) && s.vals.Keys !! active && (forall v :: v in active ==> 1 <= v <= maxVar)
    && (forall r :: r in s.literals ==> r < next && |s.literals[r]| >= 2)
    && (forall r :: r in s.garbage || r in s.redundant ==> r < next)
    && (forall r, l :: r in s.literals && r !in s.garbage && l in s.literals[r] ==>
         Var(l) in active || Var(l) in s.vals)
    && (forall r :: r in clauses ==> r in s.literals)
    && (forall r :: r in s.literals && r !in s.garbage ==> r in clauses)
  }

  /** Every literal has a representative or a value. */
  ghost predicate Known(c: Clause, vals: map<int, bool>, reprs: map<Lit, Lit>) {
    forall l :: l in c ==> l in reprs || Val(l, vals) != 0
  }

  /** Clauses that are neither settled nor postponed are still to be visited. */
  ghost predicate Visited(s: Database, clauses: seq<nat>, i: nat, size: nat, postponed: set<nat>, reprs: map<Lit, Lit>)
    requires i <= size <= |clauses|
  {
    forall r :: r in s.literals && r !in s.garbage && r !in postponed ==>
      Settled(s.literals[r], reprs) || r in clauses[i..size]
  }

  /** No assigned variable is pushed. */
  ghost predicate UnitsSettled(vals: map<int, bool>, reprs: map<Lit, Lit>) {
    forall l: Lit :: Var(l) in vals && l in reprs ==> reprs[l] == l
  }

  /** What holds while clauses are rewritten. */
  ghost predicate Substituting(s0: Database, s: Database, clauses: seq<nat>, i: nat, size: nat, next: nat,
        postponed: set<nat>, reprs: map<Lit, Lit>) {
    && i <= size <= |clauses| && Rewrites(s0, s, reprs) && Positive(s.vals) && UnitsSettled(s.vals, reprs)
    && (forall r :: r in s.literals ==> r < next && |s.literals[r]| >= 2)
    && (forall r :: r in s.garbage || r in s.redundant ==> r < next)
    && (forall r :: r in clauses ==> r in s.literals)
    && (forall r :: r in s.literals && r !in s.garbage ==> r in clauses)
    && (forall r :: r in s.literals && r !in s.garbage ==> Known(s.literals[r], s.vals, reprs))
    && Visited(s, clauses, i, size, postponed, reprs)
    && (forall r :: r in postponed ==> r in s.literals && Obvious(s.literals[r], s.vals, reprs))
  }

  /** All representatives used are representatives of themselves. */
  ghost predicate Idempotent(reprs: map<Lit, Lit>) {
    forall l :: l in reprs ==> reprs[l] in reprs && reprs[reprs[l]] == reprs[l]
  }

  lemma RepresentativesIdempotent(g: Graph, reprs: map<Lit, Lit>)
    requires Representatives(g, reprs)
    ensures Idempotent(reprs)
  {
    hide Mutual;
    forall l | l in reprs
      ensures reprs[l] in reprs && reprs[reprs[l]] == reprs[l]
    {
      RepresentativeAt(g, reprs, l);
    }
  }

  lemma RewrittenSame(c: Clause, clause: Clause, vals: map<int, bool>, reprs: map<Lit, Lit>)
    requires Rewritten(c, |c|, clause, vals, reprs)
    ensures SameMeaning(c, clause, vals, reprs)
  {
    hide Rewritten, Respects, Agrees, SatClause;
    forall m: Model | Respects(m, reprs) && Agrees(m, vals)
      ensures SatClause(c, m) <==> SatClause(clause, m)
    {
      RewrittenMeans(c, clause, vals, reprs, m);
    }
  }

  lemma RewrittenFacts(c: Clause, clause: Clause, vals: map<int, bool>, reprs: map<Lit, Lit>)
    requires Rewritten(c, |c|, clause, vals, reprs) && Idempotent(reprs)
    ensures Settled(clause, reprs) && forall x :: x in clause ==> x in reprs && reprs[x] == x && Val(x, vals) == 0
    ensures forall vals1 :: Known(clause, vals1, reprs)
  {
    forall x | x in clause
      ensures x in reprs && reprs[x] == x && Val(x, vals) == 0
    {
      var j :| 0 <= j < |c| && Becomes(c[j], x, vals, reprs);
    }
  }

  /** The rest of the list of clauses starts one later. */
  lemma NextClause(s: Database, clauses: seq<nat>, i: nat, size: nat, postponed: set<nat>, reprs: map<Lit, Lit>)
    requires i < size <= |clauses| && Visited(s, clauses, i, size, postponed, reprs)
    requires clauses[i] in s.literals ==>
      clauses[i] in s.garbage || clauses[i] in postponed || Settled(s.literals[clauses[i]], reprs)
    ensures Visited(s, clauses, i + 1, size, postponed, reprs)
  {
    assert clauses[i..size] == [clauses[i]] + clauses[i + 1..size];
  }

  /** A clause that does not change. */
  lemma KeepClause(s0: Database, s: Database, clauses: seq<nat>, i: nat, size: nat, next: nat, postponed: set<nat>,
        reprs: map<Lit, Lit>)
    requires Substituting(s0, s, clauses, i, size, next, postponed, reprs) && i < size
    requires clauses[i] in s.literals ==> clauses[i] in s.garbage || Settled(s.literals[clauses[i]], reprs)
    ensures Substituting(s0, s, clauses, i + 1, size, next, postponed, reprs)
  {
    hide Rewrites, Known, Obvious, Settled, UnitsSettled;
    NextClause(s, clauses, i, size, postponed, reprs);
  }

  lemma PostponeClause(s0: Database, s: Database, clauses: seq<nat>, i: nat, size: nat, next: nat, postponed: set<nat>,
        reprs: map<Lit, Lit>)
    requires Substituting(s0, s, clauses, i, size, next, postponed, reprs) && i < size
    requires clauses[i] in s.literals && Obvious(s.literals[clauses[i]], s.vals, reprs)
    ensures Substituting(s0, s, clauses, i + 1, size, next, postponed + {clauses[i]}, reprs)
  {
    hide Rewrites, Known, Obvious, Settled, UnitsSettled;
    NextClause(s, clauses, i, size, postponed + {clauses[i]}, reprs);
  }

  lemma KnownLater(c: Clause, vals0: map<int, bool>, vals: map<int, bool>, reprs: map<Lit, Lit>)
    requires Known(c, vals0, reprs) && Extends(vals0, vals)
    ensures Known(c, vals, reprs)
  {
  }

  lemma UnitSettled(vals: map<int, bool>, reprs: map<Lit, Lit>, l: Lit)
    requires UnitsSettled(vals, reprs) && Negations(reprs) && l in reprs && reprs[l] == l
    ensures UnitsSettled(vals[Var(l) := l > 0], reprs)
  {
    var now := vals[Var(l) := l > 0];
    forall k: Lit | Var(k) in now && k in reprs
      ensures reprs[k] == k
    {
      if Var(k) == Var(l) {
        assert k == l || k == Neg(l);
        assert NegationOf(reprs, l);
      }
    }
  }

  /** A clause that became a unit is dropped. */
  lemma UnitClause(s0: Database, s: Database, clauses: seq<nat>, i: nat, size: nat, next: nat, postponed: set<nat>,
        reprs: map<Lit, Lit>, l: Lit)
    requires Substituting(s0, s, clauses, i, size, next, postponed, reprs) && i < size && Negations(reprs)
    requires clauses[i] in s.literals && clauses[i] !in s.garbage
    requires SameMeaning(s.literals[clauses[i]], [l], s.vals, reprs)
    requires Val(l, s.vals) == 0 && l in reprs && reprs[l] == l
    ensures Substituting(s0, s.(garbage := s.garbage + {clauses[i]}, vals := s.vals[Var(l) := l > 0]), clauses, i + 1,
      size, next, postponed, reprs)
  {
    hide Rewrites, Known, Obvious, Settled, SameMeaning, UnitsSettled, Negations;
    var t := s.(garbage := s.garbage + {clauses[i]}, vals := s.vals[Var(l) := l > 0]);
    UnitSettled(s.vals, reprs, l);
    UnitRewrites(s, reprs, clauses[i], l);
    RewritesTrans(s0, s, t, reprs);
    forall r | r in t.literals && r !in t.garbage
      ensures Known(t.literals[r], t.vals, reprs)
    {
      KnownLater(t.literals[r], s.vals, t.vals, reprs);
    }
    forall r | r in postponed
      ensures Obvious(t.literals[r], t.vals, reprs)
    {
      ObviousLater(t.literals[r], s.vals, t.vals, reprs);
    }
    NextClause(t, clauses, i, size, postponed, reprs);
  }

  ghost predicate NegationOf(reprs: map<Lit, Lit>, l: Lit) {
    l in reprs && Neg(l) in reprs && reprs[Neg(l)] == Neg(reprs[l])
  }

  ghost predicate Negations(reprs: map<Lit, Lit>) {
    forall l :: l in reprs ==> NegationOf(reprs, l)
  }

  lemma RepresentativesNegations(g: Graph, reprs: map<Lit, Lit>)
    requires Representatives(g, reprs)
    ensures Negations(reprs)
  {
    hide Mutual;
    forall l | l in reprs
      ensures NegationOf(reprs, l)
    {
      RepresentativeAt(g, reprs, l);
    }
  }

  /** A clause whose watches changed is replaced by a new one. */
  lemma ReplaceClause(s0: Database, s: Database, clauses: seq<nat>, i: nat, size: nat, next: nat, postponed: set<nat>,
        reprs: map<Lit, Lit>, clause: Clause)
    requires Substituting(s0, s, clauses, i, size, next, postponed, reprs) && i < size && |clause| >= 2
    requires var c := clauses[i];
      c in s.literals && c !in s.garbage && SameMeaning(s.literals[c], clause, s.vals, reprs)
    requires Settled(clause, reprs) && Known(clause, s.vals, reprs)
    ensures var c := clauses[i];
            Substituting(s0, Replaced(s, c, next, clause), clauses[i := next] + [c], i + 1, size, next + 1, postponed,
              reprs)
  {
    hide Rewrites, Known, Obvious, Settled, SameMeaning, UnitsSettled;
    var c := clauses[i];
    var t := Replaced(s, c, next, clause);
    var now := clauses[i := next] + [c];
    ReplaceRewrites(s, reprs, c, next, clause);
    RewritesTrans(s0, s, t, reprs);
    assert now[i + 1..size] == clauses[i + 1..size];
    assert clauses[i..size] == [c] + clauses[i + 1..size];
    forall r | r in now
      ensures r in t.literals
    {
      assert r == next || r in clauses;
    }
    forall r | r in t.literals && r !in t.garbage
      ensures r in now && Known(t.literals[r], t.vals, reprs)
    {
      if r == next {
        assert now[i] == next;
      } else {
        var j :| 0 <= j < |clauses| && clauses[j] == r;
        assert j != i && now[j] == r;
      }
    }
  }

  /** A clause whose watches stay is rewritten in place. */
  lemma ShrinkClause(s0: Database, s: Database, clauses: seq<nat>, i: nat, size: nat, next: nat, postponed: set<nat>,
        reprs: map<Lit, Lit>, clause: Clause)
    requires Substituting(s0, s, clauses, i, size, next, postponed, reprs) && i < size && |clause| >= 2
    requires var c := clauses[i];
      c in s.literals && c !in s.garbage && SameMeaning(s.literals[c], clause, s.vals, reprs) && c !in postponed
    requires Settled(clause, reprs) && Known(clause, s.vals, reprs)
    ensures Substituting(s0, s.(literals := s.literals[clauses[i] := clause]), clauses, i + 1, size, next, postponed,
      reprs)
  {
    hide Rewrites, Known, Obvious, Settled, SameMeaning, UnitsSettled;
    var t := s.(literals := s.literals[clauses[i] := clause]);
    ShrinkRewrites(s, reprs, clauses[i], clause);
    RewritesTrans(s0, s, t, reprs);
    NextClause(t, clauses, i, size, postponed, reprs);
  }

  lemma EmptyLearned(s0: Database, s: Database, clauses: seq<nat>, i: nat, size: nat, next: nat, postponed: set<nat>,
        reprs: map<Lit, Lit>)
    requires Substituting(s0, s, clauses, i, size, next, postponed, reprs) && i < size
    requires var c := clauses[i]; c in s.literals && c !in s.garbage && SameMeaning(s.literals[c], [], s.vals, reprs)
    ensures Substituting(s0, s.(unsat := true), clauses, i, size, next, postponed, reprs)
  {
    hide Rewrites, Known, Obvious, Settled, SameMeaning, UnitsSettled;
    EmptyRewrites(s, reprs, clauses[i]);
    RewritesTrans(s0, s, s.(unsat := true), reprs);
  }

  /** A postponed clause becomes garbage. */
  lemma DropPostponed(s0: Database, s: Database, reprs: map<Lit, Lit>, c: nat)
    requires Rewrites(s0, s, reprs) && Positive(s.vals) && c in s.literals && Obvious(s.literals[c], s.vals, reprs)
    ensures Rewrites(s0, s.(garbage := s.garbage + {c}), reprs)
  {
    hide Rewrites, Obvious, Respects, Agrees, SatClause;
    forall m: Model | Respects(m, reprs) && Agrees(m, s.vals)
      ensures SatClause(s.literals[c], m)
    {
      ObviousHolds(s.literals[c], s.vals, reprs, m);
    }
    DropRewrites(s, reprs, c);
    RewritesTrans(s0, s, s.(garbage := s.garbage + {c}), reprs);
  }

  /** Clauses still to be visited are different, and none of them is postponed. */
  ghost predicate Ahead(clauses: seq<nat>, i: nat, size: nat, postponed: set<nat>)
    requires i <= size <= |clauses|
  {
    && (forall j, k :: i <= j < k < size ==> clauses[j] != clauses[k])
    && (forall j :: i <= j < size ==> clauses[j] !in postponed)
  }

  class Decomposer {
    const maxVar: nat
    const frozen: set<int>
    var active: set<int>
    var literals: map<nat, Clause>
    var redundant: set<nat>
    var garbage: set<nat>
    var clauses: seq<nat>
    var next: nat
    var vals: map<int, bool>
    var unsat: bool
    var watches: WatchLists
    var marked: set<Lit>
    var clauseId: nat
    var extension: seq<Entry>

    ghost function D(): Database
      reads this`literals, this`garbage, this`redundant, this`vals, this`unsat
    {
      Database(literals, garbage, redundant, vals, unsat)
    }

    ghost predicate Valid()
      reads this`literals, this`garbage, this`redundant, this`vals, this`unsat, this`clauses, this`next, this`active,
            this`marked
    {
      Wellformed(D(), clauses, next, active, maxVar) && marked == {} && NoDuplicates(clauses)
    }

    /** Replace literals by their representatives, dropping false and repeated ones,
        until the clause turns out to be satisfied. */
    method RewriteClause(c: Clause, reprs: map<Lit, Lit>) returns (satisfied: bool, clause: Clause)
      requires marked == {} && Known(c, vals, reprs)
      modifies this`marked
      ensures marked == Lits(clause)
      ensures satisfied ==> Obvious(c, vals, reprs)
      ensures !satisfied ==> Rewritten(c, |c|, clause, vals, reprs)
    {
      satisfied, clause := false, [];
      var k := 0;
      while !satisfied && k < |c|
        invariant 0 <= k <= |c| && marked == Lits(clause) && (satisfied ==> Obvious(c, vals, reprs))
        invariant !satisfied ==> Rewritten(c, k, clause, vals, reprs)
        decreases |c| - k, !satisfied
      {
        var lit := c[k];
        assert lit in c;
        var tmp := Val(lit, vals);
        if tmp > 0 {
          satisfied := true;
        } else if tmp < 0 {
          DropLiteral(c, k, clause, vals, reprs);
        } else {
          var other := reprs[lit];
          tmp := Val(other, vals);
          if tmp < 0 {
            DropLiteral(c, k, clause, vals, reprs);
          } else if tmp > 0 {
            satisfied := true;
          } else if Neg(other) in marked {
            BothSigns(c, k, clause, vals, reprs);
            satisfied := true;
          } else if other !in marked {
            AddLiteral(c, k, clause, vals, reprs);
            LitsAppend(clause, other);
            marked := marked + {other};
            clause := clause + [other];
          } else {
            DropLiteral(c, k, clause, vals, reprs);
          }
        }
        k := k + 1;
      }
    }

    method UnmarkClause(clause: Clause)
      requires marked == Lits(clause)
      modifies this`marked
      ensures marked == {}
    {
      var left := clause;
      while left != []
        invariant forall l :: l in marked ==> l in left
        decreases |left|
      {
        var lit := left[|left| - 1];
        assert left == left[..|left| - 1] + [lit];
        left := left[..|left| - 1];
        marked := marked - {lit};
      }
    }

    /** What is done with clause number `i`. */
    method SubstituteClause(i: nat, size: nat, reprs: map<Lit, Lit>, postponed0: set<nat>, ghost s0: Database)
      returns (postponed: set<nat>, newUnit: bool, newBinary: bool)
      requires Substituting(s0, D(), clauses, i, size, next, postponed0, reprs) && i < size <= |clauses|
      requires Ahead(clauses, i, size, postponed0)
      requires Idempotent(reprs) && Negations(reprs) && marked == {} && !unsat
      modifies this`literals, this`garbage, this`redundant, this`clauses, this`next, this`vals, this`unsat, this`marked,
               this`active
      ensures marked == {} && active == old(active) - (vals.Keys - old(vals).Keys) && Extends(old(vals), vals)
      ensures size <= |clauses|
      ensures !unsat ==>
        Substituting(s0, D(), clauses, i + 1, size, next, postponed, reprs) && Ahead(clauses, i + 1, size, postponed)
      ensures unsat ==> Substituting(s0, D(), clauses, i, size, next, postponed, reprs)
      ensures !unsat ==> clauses[i + 1..size] == old(clauses)[i + 1..size]
      ensures !unsat ==> Turn(With(old(D()), postponed0), With(D(), postponed), old(clauses)[i], reprs)
      ensures !unsat ==> (newUnit <==> vals != old(vals)) && (newBinary <==> NewBinary(old(D()), D()))
    {
      hide Substituting, Settled, Known, Obvious, Rewritten, Lits, Idempotent, Negations, Ahead, Turn, NewBinary;
      NothingNew(D(), D());
      postponed, newUnit, newBinary := postponed0, false, false;
      NothingAssigned(active, vals);
      var c := clauses[i];
      VisitFacts(s0, D(), clauses, i, size, next, postponed, reprs);
      AheadNext(clauses, i, size, postponed);
      if c in garbage {
        KeepTurn(With(D(), postponed), c, reprs);
        KeepClause(s0, D(), clauses, i, size, next, postponed, reprs);
        return;
      }
      var settled := AllSettled(literals[c], reprs);
      if settled {
        KeepTurn(With(D(), postponed), c, reprs);
        KeepClause(s0, D(), clauses, i, size, next, postponed, reprs);
        return;
      }
      var satisfied, clause := RewriteClause(literals[c], reprs);
      UnmarkClause(clause);
      if satisfied {
        PostponeClause(s0, D(), clauses, i, size, next, postponed, reprs);
        AheadPostponed(clauses, i, size, postponed);
        DropTurn(With(D(), postponed), c, reprs);
        assert garbage + (postponed + {c}) == garbage + postponed + {c};
        postponed := postponed + {c};
      } else {
        newUnit, newBinary := UseRewritten(i, size, clause, reprs, postponed, s0);
      }
    }

    /** A clause that is not satisfied becomes empty, a unit, a new clause, or is
        rewritten in place if its two watched literals stay. */
    method UseRewritten(i: nat, size: nat, clause: Clause, reprs: map<Lit, Lit>, ghost postponed: set<nat>,
          ghost s0: Database)
      returns (newUnit: bool, newBinary: bool)
      requires Substituting(s0, D(), clauses, i, size, next, postponed, reprs) && i < size <= |clauses|
      requires Ahead(clauses, i, size, postponed)
      requires Idempotent(reprs) && Negations(reprs) && !unsat && clauses[i] in literals && clauses[i] !in garbage
      requires |literals[clauses[i]]| >= 2
      requires Rewritten(literals[clauses[i]], |literals[clauses[i]]|, clause, vals, reprs)
      requires !OwnLiterals(literals[clauses[i]], reprs)
      modifies this`literals, this`garbage, this`redundant, this`clauses, this`next, this`vals, this`unsat, this`active
      ensures active == old(active) - (vals.Keys - old(vals).Keys) && Extends(old(vals), vals) && size <= |clauses|
      ensures !unsat ==>
        Substituting(s0, D(), clauses, i + 1, size, next, postponed, reprs) && Ahead(clauses, i + 1, size, postponed)
      ensures unsat ==> Substituting(s0, D(), clauses, i, size, next, postponed, reprs)
      ensures !unsat ==> clauses[i + 1..size] == old(clauses)[i + 1..size]
      ensures !unsat ==> Turn(With(old(D()), postponed), With(D(), postponed), old(clauses)[i], reprs)
      ensures !unsat ==> (newUnit <==> vals != old(vals)) && (newBinary <==> NewBinary(old(D()), D()))
    {
      hide Substituting, Settled, Known, Obvious, Rewritten, SameMeaning, Idempotent, Negations, Ahead, Turn,
           NewBinary, OwnLiterals;
      newUnit, newBinary := false, false;
      ghost var s := With(D(), postponed);
      NextFresh(s0, D(), clauses, i, size, next, postponed, reprs);
      NothingNew(D(), D());
      NothingAssigned(active, vals);
      var c := clauses[i];
      var lits := literals[c];
      AheadNext(clauses, i, size, postponed);
      RewrittenSame(lits, clause, vals, reprs);
      RewrittenFacts(lits, clause, vals, reprs);
      if |clause| == 0 {
        assert clause == [];
        EmptyLearned(s0, D(), clauses, i, size, next, postponed, reprs);
        unsat := true;
      } else if |clause| == 1 {
        var unit := clause[0];
        assert clause == [unit] && unit in clause;
        UnitClause(s0, D(), clauses, i, size, next, postponed, reprs, unit);
        UnitTurn(s, c, unit, reprs);
        assert garbage + {c} + postponed == garbage + postponed + {c};
        NothingNew(D(), D().(garbage := garbage + {c}, vals := vals[Var(unit) := unit > 0]));
        OneAssigned(active, vals, unit);
        vals := vals[Var(unit) := unit > 0];
        active := active - {Var(unit)};
        garbage := garbage + {c};
        newUnit := true;
      } else if lits[0] != clause[0] || lits[1] != clause[1] {
        newBinary := |clause| == 2;
        ReplaceClause(s0, D(), clauses, i, size, next, postponed, reprs, clause);
        ReplaceTurn(s, c, next, clause, reprs);
        assert garbage + {c} + postponed == garbage + postponed + {c};
        SameNew(D(), s, Replaced(D(), c, next, clause), Replaced(s, c, next, clause));
        AheadReplaced(clauses, i, size, next, postponed);
        literals := literals[next := clause];
        redundant := if c in redundant then redundant + {next} else redundant;
        garbage := garbage + {c};
        clauses := clauses[i := next] + [c];
        next := next + 1;
      } else {
        newBinary := |clause| == 2 && |clause| < |lits|;
        ShrinkClause(s0, D(), clauses, i, size, next, postponed, reprs, clause);
        ShrinkTurn(s, c, clause, reprs);
        SameNew(D(), s, D().(literals := literals[c := clause]), s.(literals := literals[c := clause]));
        literals := literals[c := clause];
      }
    }

    /** Does no literal have another representative? */
    method AllSettled(c: Clause, reprs: map<Lit, Lit>) returns (res: bool)
      ensures res <==> OwnLiterals(c, reprs)
      ensures res ==> Settled(c, reprs)
    {
      for j := 0 to |c|
        invariant forall k :: 0 <= k < j ==> c[k] in reprs && reprs[c[k]] == c[k]
      {
        if c[j] !in reprs || reprs[c[j]] != c[j] {
          assert c[j] in c;
          return false;
        }
      }
      return true;
    }

    /** Substitute in all clauses, then drop the satisfied ones. */
    method SubstituteAll(reprs: map<Lit, Lit>, substituted: nat, ghost s0: Database)
      returns (newUnit: bool, newBinary: bool)
      requires Substituting(s0, D(), clauses, 0, |clauses|, next, {}, reprs) && NoDuplicates(clauses)
      requires Idempotent(reprs) && Negations(reprs) && marked == {} && !unsat
      requires substituted == 0 <==> AllOwn(reprs)
      modifies this`literals, this`garbage, this`redundant, this`clauses, this`next, this`vals, this`unsat, this`marked,
               this`active
      ensures marked == {} && active == old(active) - (vals.Keys - old(vals).Keys) && Extends(old(vals), vals)
      ensures Rewrites(s0, D(), reprs) && Positive(vals) && UnitsSettled(vals, reprs)
      ensures forall r :: r in literals ==> r < next && |literals[r]| >= 2
      ensures forall r :: r in garbage || r in redundant ==> r < next
      ensures (forall r :: r in clauses ==> r in literals)
      ensures (forall r :: r in literals && r !in garbage ==> r in clauses)
      ensures !unsat ==>
        forall r :: r in literals && r !in garbage ==> Settled(literals[r], reprs) && Known(literals[r], vals, reprs)
      ensures AllOwn(reprs) ==> D() == old(D())
      ensures !AllOwn(reprs) && !unsat ==> Fates(old(D()), old(clauses), |old(clauses)|, D(), reprs)
      ensures !unsat ==> (newUnit <==> vals != old(vals)) && (newBinary <==> NewBinary(old(D()), D()))
    {
      hide Substituting, Settled, Known, Obvious, Rewrites, SameMeaning, Lits, Positive, UnitsSettled, Idempotent,
           Negations, AllOwn, Fates, Turn, NewBinary, Ahead, Extends, NoDuplicates;
      ghost var d0, list0 := D(), clauses;
      ListedClauses(s0, D(), clauses, 0, |clauses|, next, {}, reprs);
      assert garbage + {} == garbage;
      NoFates(d0, list0, reprs);
      NothingNew(d0, d0);
      ValsGrow(vals, vals, vals);
      AllAhead(clauses);
      var size := |clauses|;
      var postponed: set<nat> := {};
      newUnit, newBinary := false, false;
      NothingAssigned(active, vals);
      var i := 0;
      while substituted > 0 && !unsat && i < size
        invariant Substituting(s0, D(), clauses, i, size, next, postponed, reprs) && i <= size <= |clauses|
        invariant !unsat ==> Ahead(clauses, i, size, postponed)
        invariant marked == {} && active == old(active) - (vals.Keys - old(vals).Keys) && Extends(old(vals), vals)
        invariant substituted == 0 ==> D() == d0 && postponed == {}
        invariant !unsat ==> Fates(d0, list0, i, With(D(), postponed), reprs) && clauses[i..size] == list0[i..]
        invariant !unsat ==> (newUnit <==> vals != old(vals)) && (newBinary <==> NewBinary(d0, D()))
        decreases size - i, !unsat
      {
        ghost var d1 := D();
        assert clauses[i] == clauses[i..size][0] == list0[i];
        assert clauses[i..size][1..] == clauses[i + 1..size] && list0[i..][1..] == list0[i + 1..];
        ghost var active1, vals1 := active, vals;
        var unit, binary: bool;
        ghost var postponed1 := postponed;
        ExtendsFacts(s0, D(), clauses, i, size, next, postponed, reprs);
        postponed, unit, binary := SubstituteClause(i, size, reprs, postponed, s0);
        newUnit, newBinary := newUnit || unit, newBinary || binary;
        if !unsat {
          ghost var t0, t1 := With(d1, postponed1), With(D(), postponed);
          FatesNext(d0, list0, i, t0, t1, reprs);
          NewBinaryNext(d0, list0, i, t0, t1, reprs);
          SameNew(d0, d0, d1, t0);
          SameNew(d0, d0, D(), t1);
          SameNew(d1, t0, D(), t1);
          ValsGrow(old(vals), vals1, vals);
          i := i + 1;
        }
        MoreAssigned(old(active), old(vals), active1, vals1, active, vals);
      }
      SubstitutedFacts(s0, D(), clauses, i, size, next, postponed, reprs, substituted);
      if !unsat {
        ghost var d1 := D();
        DropAllPostponed(postponed, reprs, s0);
        SameNew(d0, d0, d1, D());
      }
    }

    /** Postponed clauses become garbage. */
    method DropAllPostponed(postponed: set<nat>, reprs: map<Lit, Lit>, ghost s0: Database)
      requires Rewrites(s0, D(), reprs) && Positive(vals)
      requires forall r :: r in postponed ==> r in literals && Obvious(literals[r], vals, reprs)
      modifies this`garbage
      ensures Rewrites(s0, D(), reprs) && garbage == old(garbage) + postponed
    {
      hide Rewrites, Obvious;
      var left := postponed;
      while left != {}
        invariant Rewrites(s0, D(), reprs) && left <= postponed && garbage == old(garbage) + (postponed - left)
        decreases |left|
      {
        var c :| c in left;
        DropPostponed(s0, D(), reprs, c);
        garbage := garbage + {c};
        left := left - {c};
      }
    }

    /** Push the equivalences of substituted variables. */
    method PushEquivalences(reprs: map<Lit, Lit>)
      requires forall v :: v in active ==> v > 0 && v as Lit in reprs
      modifies this`extension, this`clauseId
      ensures extension == old(extension) + Equivalences(maxVar, active, reprs, old(clauseId) + 1)
    {
      for v := 1 to maxVar + 1
        invariant extension == old(extension) + Equivalences(v - 1, active, reprs, old(clauseId) + 1)
        invariant clauseId == old(clauseId) + |Equivalences(v - 1, active, reprs, old(clauseId) + 1)|
      {
        if v !in active {
          continue;
        }
        var idx: Lit := v;
        var other := reprs[idx];
        if other == idx {
          continue;
        }
        clauseId := clauseId + 1;
        var id1 := clauseId;
        extension := extension + [Entry([Neg(idx)], id1, [Neg(idx), other])];
        clauseId := clauseId + 1;
        var id2 := clauseId;
        extension := extension + [Entry([idx], id2, [idx, Neg(other)])];
      }
    }

    /** `mark_substituted`, unless the representative has been assigned. */
    method MarkSubstituted(reprs: map<Lit, Lit>)
      requires forall v :: v in active ==> v > 0 && v as Lit in reprs
      modifies this`active
      ensures active <= old(active)
      ensures forall v :: v in old(active) && v <= maxVar ==>
        (v !in active <==> reprs[v as Lit] != v && Val(reprs[v as Lit], vals) == 0)
    {
      for v := 1 to maxVar + 1
        invariant active <= old(active) && forall k :: k in old(active) && k >= v ==> k in active
        invariant forall k :: k in old(active) && k < v ==>
          (k !in active <==> reprs[k as Lit] != k && Val(reprs[k as Lit], vals) == 0)
      {
        if v !in active {
          continue;
        }
        var idx: Lit := v;
        var other := reprs[idx];
        if other == idx {
          continue;
        }
        if Val(other, vals) == 0 {
          active := active - {v};
        }
      }
    }

    /** The depth first search over the binary implication graph.  Literals that are
        not frozen get the same representative exactly if they imply each other. */
    method FindRepresentatives() returns (conflict: Option<Lit>, reprs: map<Lit, Lit>, substituted: nat)
      requires Watched(literals, garbage, watches) && BinaryLive(watches, garbage)
      requires forall v :: v in active ==> 1 <= v <= maxVar
      ensures conflict.Some? ==> Mutual(GraphOf(watches, active), conflict.value, Neg(conflict.value))
      ensures conflict == None ==>
        && Usable(GraphOf(watches, active), active, reprs, substituted)
        && SameExactly(GraphOf(watches, active), frozen, reprs)
        && Represented(GraphOf(watches, active), Nodes(active), frozen, reprs) && reprs.Keys == Nodes(active)
    {
      hide Watched, BinaryLive, Represented, Representatives, Mutual, Skew, GraphOf, Idempotent, Negations;
      ghost var g := GraphOf(watches, active);
      GraphIsSkew(literals, garbage, watches, active);
      var dfs := new DepthFirst(watches, active, frozen, maxVar);
      dfs.SearchAll();
      conflict, reprs, substituted := dfs.conflict, dfs.reprs, dfs.substituted;
      if conflict == None {
        GraphRepresentatives(watches, active, frozen, reprs);
        RepresentativesIdempotent(g, reprs);
        RepresentativesNegations(g, reprs);
        ActiveRepresented(active, reprs);
        forall a, b | a in reprs && b in reprs && Var(a) !in frozen && Var(b) !in frozen
          ensures reprs[a] == reprs[b] <==> Mutual(g, a, b)
        {
          assert a in reprs.Keys && b in reprs.Keys;
          SameRepresentative(g, Nodes(active), frozen, reprs, a, b);
        }
      }
    }

    /** Rewrite the clauses and push the equivalences. */
    method Substitute(reprs: map<Lit, Lit>, substituted: nat) returns (success: bool, ghost es: seq<Entry>)
      requires Valid() && Sound(D()) && Watched(literals, garbage, watches) && BinaryLive(watches, garbage) && !unsat
      requires Usable(GraphOf(watches, active), active, reprs, substituted)
      modifies this
      ensures extension == old(extension) + es && Reconstructs(Irredundant(D()), es, Irredundant(old(D())))
      ensures SameWith(All(old(D())), All(D()), es) && Entails(Irredundant(old(D())), Irredundant(D())) && Sound(D())
      ensures !unsat ==> Wellformed(D(), clauses, next, active, maxVar) && marked == {}
      ensures !unsat ==> PushedGone(es, literals, garbage)
      ensures es == Equivalences(maxVar, old(active), reprs, old(clauseId) + 1)
      ensures !unsat ==> Replacing(old(D()), D(), old(active), active, reprs)
      ensures success <==> unsat || vals != old(vals) || NewBinary(old(D()), D())
    {
      hide All, Irredundant, Sound, Wellformed, Watched, BinaryLive, Reconstructs, SameWith, Entails, Representatives,
           Idempotent, Negations,
        Substituting, Rewrites, PushedGone, GraphOf, Equivalences, UnitsSettled, Positive, Settled, Known, AllOwn,
        Fates, NewBinary;
      ghost var s0, active0, id, g, next0 := D(), active, clauseId + 1, GraphOf(watches, active), next;
      ActiveVars(s0, clauses, next, active, maxVar);
      PushEquivalences(reprs);
      es := Equivalences(maxVar, active0, reprs, id);
      StartSubstituting(s0, clauses, next, active, maxVar, reprs);
      var newUnit, newBinary := SubstituteAll(reprs, substituted, s0);
      RoundDone(s0, D(), watches, active0, maxVar, reprs, id);
      if !unsat {
        ghost var active1 := active;
        MarkSubstituted(reprs);
        StillWellformed(s0, D(), clauses, next, active0, active1, active, maxVar, reprs);
        RepresentedGone(g, D(), active0, maxVar, reprs, id);
        NothingNew(s0, s0);
        NowReplaced(s0, D(), old(clauses), next0, active0, active1, active, maxVar, reprs);
      }
      success := unsat || (substituted > 0 && (newUnit || newBinary));
    }

    /** `decompose_round`.  Without a conflict literals that imply each other are
        replaced by one of them in all clauses; the others are pushed and retired. */
    method DecomposeRound() returns (success: bool, ghost es: seq<Entry>, ghost reprs: map<Lit, Lit>)
      requires Valid() && Sound(D()) && Watched(literals, garbage, watches) && BinaryLive(watches, garbage)
      modifies this
      ensures extension == old(extension) + es && Reconstructs(Irredundant(D()), es, Irredundant(old(D())))
      ensures SameWith(All(old(D())), All(D()), es) && Entails(Irredundant(old(D())), Irredundant(D())) && Sound(D())
      ensures !unsat ==> Wellformed(D(), clauses, next, active, maxVar) && marked == {}
      ensures !unsat ==> PushedGone(es, literals, garbage)
      ensures old(unsat) ==> D() == old(D())
      ensures success <==> !old(unsat) && (unsat || vals != old(vals) || NewBinary(old(D()), D()))
      ensures Clashing(old(GraphOf(watches, active)), old(active)) ==> unsat
      ensures !unsat ==> Represented(old(GraphOf(watches, active)), Nodes(old(active)), frozen, reprs)
      ensures !unsat ==> Replacing(old(D()), D(), old(active), active, reprs)
      ensures !unsat ==> es == Equivalences(maxVar, old(active), reprs, old(clauseId) + 1)
      ensures !unsat ==> OneLeft(old(GraphOf(watches, active)), frozen, old(active), active, D())
      ensures !unsat ==> RetiredPushed(old(GraphOf(watches, active)), old(active), active, vals, es)
    {
      hide All, Irredundant, Sound, Wellformed, Watched, BinaryLive, Reconstructs, SameWith, Entails, Representatives,
           Idempotent, Negations,
        Mutual, PushedGone, GraphOf, Represented, Replacing, Equivalences, OneLeft, RetiredPushed, NewBinary, Nodes,
        SameExactly, Clashing;
      success, es, reprs := false, [], map[];
      ghost var s0, active0, g := D(), active, GraphOf(watches, active);
      NothingDone(s0);
      if unsat {
        return;
      }
      ActiveVars(s0, clauses, next, active, maxVar);
      var conflict, found, substituted := FindRepresentatives();
      if conflict.Some? {
        var parent := conflict.value;
        vals := vals[Var(parent) := parent > 0];
        active := active - {Var(parent)};
        unsat := true;
        ConflictFound(s0, watches, active0, parent, D());
        return true, [], map[];
      }
      reprs := found;
      NoneClashing(g, active0, frozen, reprs);
      success, es := Substitute(found, substituted);
      if !unsat {
        OnlyOneLeft(g, frozen, s0, D(), active0, active, reprs, substituted);
        PairsPushed(g, s0, D(), active0, active, reprs, substituted, maxVar, old(clauseId) + 1);
      }
    }
  }

  // ----------------------------------------------------------- steps of rewriting

  lemma DropLiteral(c: Clause, k: nat, clause: Clause, vals: map<int, bool>, reprs: map<Lit, Lit>)
    requires k < |c| && Rewritten(c, k, clause, vals, reprs)
    requires Val(c[k], vals) < 0 || (c[k] in reprs && (Val(reprs[c[k]], vals) < 0 || reprs[c[k]] in clause))
    ensures Rewritten(c, k + 1, clause, vals, reprs)
  {
    forall x | x in clause
      ensures exists j :: 0 <= j < k + 1 && Becomes(c[j], x, vals, reprs)
    {
      var j :| 0 <= j < k && Becomes(c[j], x, vals, reprs);
    }
  }

  lemma AddLiteral(c: Clause, k: nat, clause: Clause, vals: map<int, bool>, reprs: map<Lit, Lit>)
    requires k < |c| && Rewritten(c, k, clause, vals, reprs) && Val(c[k], vals) == 0 && c[k] in reprs
    requires Val(reprs[c[k]], vals) == 0
    requires reprs[c[k]] !in clause && Neg(reprs[c[k]]) !in clause
    ensures Rewritten(c, k + 1, clause + [reprs[c[k]]], vals, reprs)
  {
    var o := reprs[c[k]];
    var now := clause + [o];
    assert Neg(Neg(o)) == o;
    forall x | x in now
      ensures (exists j :: 0 <= j < k + 1 && Becomes(c[j], x, vals, reprs)) && Neg(x) !in now
    {
      if x == o {
        assert Becomes(c[k], x, vals, reprs);
      } else {
        var j :| 0 <= j < k && Becomes(c[j], x, vals, reprs);
      }
    }
    forall j | 0 <= j < k + 1
      ensures Val(c[j], vals) < 0 || (c[j] in reprs && (Val(reprs[c[j]], vals) < 0 || reprs[c[j]] in now))
    {
    }
  }

  lemma BothSigns(c: Clause, k: nat, clause: Clause, vals: map<int, bool>, reprs: map<Lit, Lit>)
    requires k < |c| && Rewritten(c, k, clause, vals, reprs) && c[k] in reprs && Neg(reprs[c[k]]) in clause
    ensures Obvious(c, vals, reprs)
  {
    var o := reprs[c[k]];
    var j :| 0 <= j < k && Becomes(c[j], Neg(o), vals, reprs);
    assert c[j] in c && c[k] in c && reprs[c[j]] == Neg(reprs[c[k]]);
  }

  lemma VisitFacts(s0: Database, s: Database, clauses: seq<nat>, i: nat, size: nat, next: nat, postponed: set<nat>,
        reprs: map<Lit, Lit>)
    requires Substituting(s0, s, clauses, i, size, next, postponed, reprs) && i < size
    ensures i < |clauses| && clauses[i] in s.literals && |s.literals[clauses[i]]| >= 2
    ensures clauses[i] !in s.garbage ==> Known(s.literals[clauses[i]], s.vals, reprs)
    ensures forall r :: r in clauses ==> r < next
  {
    hide Rewrites, Known, Obvious, Settled, UnitsSettled, Visited;
  }

  lemma ListedClauses(s0: Database, s: Database, clauses: seq<nat>, i: nat, size: nat, next: nat, postponed: set<nat>,
        reprs: map<Lit, Lit>)
    requires Substituting(s0, s, clauses, i, size, next, postponed, reprs)
    ensures forall r :: r in clauses ==> r in s.literals
  {
    hide Rewrites, Known, Obvious, Settled, UnitsSettled, Visited;
  }

  lemma AllAhead(clauses: seq<nat>)
    requires NoDuplicates(clauses)
    ensures Ahead(clauses, 0, |clauses|, {})
  {
  }

  lemma ValsGrow(vals0: map<int, bool>, vals1: map<int, bool>, vals: map<int, bool>)
    ensures Extends(vals, vals)
    ensures Extends(vals0, vals1) && Extends(vals1, vals) ==> (vals != vals0 <==> vals1 != vals0 || vals != vals1)
  {
    if Extends(vals0, vals1) && Extends(vals1, vals) && vals == vals0 {
      forall v | v in vals1.Keys
        ensures v in vals0 && vals1[v] == vals0[v]
      {
      }
      forall v | v in vals0.Keys
        ensures v in vals1
      {
      }
      assert vals1 == vals0;
    }
  }

  lemma NextFresh(s0: Database, s: Database, clauses: seq<nat>, i: nat, size: nat, next: nat, postponed: set<nat>,
        reprs: map<Lit, Lit>)
    requires Substituting(s0, s, clauses, i, size, next, postponed, reprs)
    ensures next !in s.literals && next !in s.garbage && next !in s.redundant && next !in postponed
  {
    hide Rewrites, Known, Obvious, Settled, UnitsSettled, Visited;
  }

  lemma ExtendsFacts(s0: Database, s: Database, clauses: seq<nat>, i: nat, size: nat, next: nat, postponed: set<nat>,
        reprs: map<Lit, Lit>)
    requires Substituting(s0, s, clauses, i, size, next, postponed, reprs)
    ensures Extends(s0.vals, s.vals)
  {
    hide Known, Obvious, Settled, UnitsSettled, Visited;
  }

  lemma AheadNext(clauses: seq<nat>, i: nat, size: nat, postponed: set<nat>)
    requires i < size <= |clauses| && Ahead(clauses, i, size, postponed)
    ensures Ahead(clauses, i + 1, size, postponed) && clauses[i] !in postponed
  {
  }

  lemma AheadPostponed(clauses: seq<nat>, i: nat, size: nat, postponed: set<nat>)
    requires i < size <= |clauses| && Ahead(clauses, i, size, postponed)
    ensures Ahead(clauses, i + 1, size, postponed + {clauses[i]})
  {
  }

  lemma AheadReplaced(clauses: seq<nat>, i: nat, size: nat, next: nat, postponed: set<nat>)
    requires i < size <= |clauses| && Ahead(clauses, i, size, postponed)
    ensures Ahead(clauses[i := next] + [clauses[i]], i + 1, size, postponed)
  {
  }

  lemma NothingAssigned(active: set<int>, vals: map<int, bool>)
    ensures active == active - (vals.Keys - vals.Keys)
  {
  }

  lemma OneAssigned(active: set<int>, vals: map<int, bool>, l: Lit)
    requires Val(l, vals) == 0
    ensures active - {Var(l)} == active - (vals[Var(l) := l > 0].Keys - vals.Keys)
  {
  }

  lemma MoreAssigned(active0: set<int>, vals0: map<int, bool>, active1: set<int>, vals1: map<int, bool>,
        active: set<int>, vals: map<int, bool>)
    requires active1 == active0 - (vals1.Keys - vals0.Keys) && active == active1 - (vals.Keys - vals1.Keys)
    requires Extends(vals0, vals1) && Extends(vals1, vals)
    ensures active == active0 - (vals.Keys - vals0.Keys)
    ensures Extends(vals0, vals)
  {
    assert forall v :: v in vals1 ==> v in vals.Keys;
    assert forall v :: v in vals0 ==> v in vals1.Keys;
  }

  /** All clauses have been visited, or there was nothing to substitute. */
  lemma SubstitutedFacts(s0: Database, s: Database, clauses: seq<nat>, i: nat, size: nat, next: nat,
        postponed: set<nat>, reprs: map<Lit, Lit>, substituted: nat)
    requires Substituting(s0, s, clauses, i, size, next, postponed, reprs)
    requires substituted == 0 ==> AllOwn(reprs)
    requires substituted == 0 || s.unsat || i == size
    ensures Rewrites(s0, s, reprs) && Positive(s.vals) && UnitsSettled(s.vals, reprs)
    ensures forall r :: r in s.literals ==> r < next && |s.literals[r]| >= 2
    ensures forall r :: r in s.garbage || r in s.redundant ==> r < next
    ensures (forall r :: r in clauses ==> r in s.literals)
    ensures (forall r :: r in s.literals && r !in s.garbage ==> r in clauses)
    ensures forall r :: r in postponed ==> r in s.literals && Obvious(s.literals[r], s.vals, reprs)
    ensures !s.unsat ==> forall r :: r in s.literals && r !in s.garbage && r !in postponed ==>
      Settled(s.literals[r], reprs) && Known(s.literals[r], s.vals, reprs)
  {
    hide Rewrites, Known, Obvious, UnitsSettled;
    assert i == size ==> clauses[i..size] == [];
  }

  // ------------------------------------------------------------------ the round

  ghost predicate Clashing(g: Graph, active: set<int>) {
    exists l: Lit :: Var(l) in active && Mutual(g, l, Neg(l))
  }

  lemma NoneClashing(g: Graph, active: set<int>, frozen: set<int>, reprs: map<Lit, Lit>)
    requires Represented(g, Nodes(active), frozen, reprs)
    ensures !Clashing(g, active)
  {
    hide Mutual, Nodes;
    forall l: Lit | Var(l) in active
      ensures !Mutual(g, l, Neg(l))
    {
      NodesOf(active, l);
      assert RepOf(g, frozen, reprs, l);
    }
  }

  /** An active variable stays active if it does not get a value, and is its own
      representative or its representative has got one. */
  ghost predicate StaysActive(v: int, vals: map<int, bool>, reprs: map<Lit, Lit>) {
    v !in vals && v > 0 && v as Lit in reprs && (reprs[v as Lit] == v || Val(reprs[v as Lit], vals) != 0)
  }

  ghost predicate AllFates(s0: Database, s: Database, reprs: map<Lit, Lit>) {
    && s0.garbage <= s.garbage
    && (forall r :: Remains(r, s0) ==> Fate(r, s0, s, reprs) && (r in s.redundant <==> r in s0.redundant))
    && forall t :: t in s.literals && t !in s0.literals ==> Justified(t, s0, s, reprs)
  }

  /** All clauses are treated, and no clause contains a literal that has another
      representative. */
  ghost predicate Replacing(s0: Database, s: Database, active0: set<int>, active: set<int>, reprs: map<Lit, Lit>) {
    && (forall r :: Remains(r, s) ==> Settled(s.literals[r], reprs))
    && (if AllOwn(reprs) then s == s0 else AllFates(s0, s, reprs))
    && (forall v :: v in active <==> v in active0 && StaysActive(v, s.vals, reprs))
  }

  lemma NowReplaced(s0: Database, s: Database, clauses: seq<nat>, next: nat, active0: set<int>, active1: set<int>,
        active: set<int>, maxVar: nat, reprs: map<Lit, Lit>)
    requires Wellformed(s0, clauses, next, active0, maxVar) && Positive(s.vals)
    requires forall r :: r in s.literals && r !in s.garbage ==> Settled(s.literals[r], reprs)
    requires AllOwn(reprs) ==> s == s0
    requires !AllOwn(reprs) ==> Fates(s0, clauses, |clauses|, s, reprs)
    requires active1 == active0 - (s.vals.Keys - s0.vals.Keys) && active <= active1
    requires forall v :: v in active1 && v <= maxVar ==>
      v as Lit in reprs && (v !in active <==> reprs[v as Lit] != v && Val(reprs[v as Lit], s.vals) == 0)
    ensures Replacing(s0, s, active0, active, reprs)
  {
    hide Fate, Justified, Settled, AllOwn, SameClause;
    forall v | v in active0
      ensures v in active <==> StaysActive(v, s.vals, reprs)
    {
      assert v !in s0.vals.Keys;
    }
    if !AllOwn(reprs) {
      forall r | Remains(r, s0)
        ensures Fate(r, s0, s, reprs)
      {
        var j :| 0 <= j < |clauses| && clauses[j] == r;
      }
    }
  }

  ghost predicate Occurs(v: int, s: Database) {
    exists r, l :: Remains(r, s) && l in s.literals[r] && Var(l) == v
  }

  /** Of two variables whose literals imply each other only one is left in the
      clauses, and only one is left active unless a literal that is equivalent to
      them has got a value. */
  ghost predicate OneLeft(g: Graph, frozen: set<int>, active0: set<int>, active: set<int>, s: Database) {
    forall a, b :: Mutual(g, a, b) && Var(a) != Var(b) && {Var(a), Var(b)} <= active0 && {Var(a), Var(b)} !! frozen ==>
      && !(Occurs(Var(a), s) && Occurs(Var(b), s))
      && (Var(a) in active && Var(b) in active ==> exists r :: Mutual(g, a, r) && Val(r, s.vals) != 0)
  }

  /** A literal and its variable are represented alike. */
  lemma OfVariable(reprs: map<Lit, Lit>, l: Lit, vals: map<int, bool>)
    requires Negations(reprs) && l in reprs && Var(l) as Lit in reprs
    ensures reprs[l] == l <==> reprs[Var(l) as Lit] == Var(l)
    ensures Val(reprs[l], vals) != 0 <==> Val(reprs[Var(l) as Lit], vals) != 0
  {
    var v: Lit := Var(l);
    assert l == v || l == Neg(v);
    assert NegationOf(reprs, v);
  }

  lemma OwnIfOccurs(s: Database, reprs: map<Lit, Lit>, l: Lit)
    requires Negations(reprs) && l in reprs && Neg(l) in reprs && Occurs(Var(l), s)
    requires forall r :: Remains(r, s) ==> Settled(s.literals[r], reprs)
    ensures reprs[l] == l
  {
    var r, k :| Remains(r, s) && k in s.literals[r] && Var(k) == Var(l);
    assert Settled(s.literals[r], reprs);
    assert k == l || k == Neg(l);
    assert NegationOf(reprs, k) && Neg(Neg(l)) == l;
  }

  lemma OnlyOneLeft(g: Graph, frozen: set<int>, s0: Database, s: Database, active0: set<int>, active: set<int>,
        reprs: map<Lit, Lit>, substituted: nat)
    requires Usable(g, active0, reprs, substituted) && SameExactly(g, frozen, reprs)
    requires Replacing(s0, s, active0, active, reprs)
    ensures OneLeft(g, frozen, active0, active, s)
  {
    hide Mutual, Representatives, Idempotent, Occurs, AllFates, Settled, Negations;
    forall a, b | Mutual(g, a, b) && Var(a) != Var(b) && {Var(a), Var(b)} <= active0 && {Var(a), Var(b)} !! frozen
      ensures !(Occurs(Var(a), s) && Occurs(Var(b), s))
      ensures Var(a) in active && Var(b) in active ==> exists r :: Mutual(g, a, r) && Val(r, s.vals) != 0
    {
      assert Var(a) in {Var(a), Var(b)} && Var(b) in {Var(a), Var(b)};
      assert a in reprs && b in reprs && Neg(a) in reprs && Neg(b) in reprs;
      RepresentativeAt(g, reprs, a);
      assert reprs[a] == reprs[b];
      if Occurs(Var(a), s) && Occurs(Var(b), s) {
        OwnIfOccurs(s, reprs, a);
        OwnIfOccurs(s, reprs, b);
      }
      OfVariable(reprs, a, s.vals);
      OfVariable(reprs, b, s.vals);
    }
  }

  /** Two variables whose literals imply each other and that got no value both stay
      active exactly if their representative got one. */
  lemma BothActive(g: Graph, frozen: set<int>, s0: Database, s: Database, active0: set<int>, active: set<int>,
        reprs: map<Lit, Lit>, substituted: nat, a: Lit, b: Lit)
    requires Usable(g, active0, reprs, substituted) && SameExactly(g, frozen, reprs)
    requires Replacing(s0, s, active0, active, reprs)
    requires Mutual(g, a, b) && Var(a) != Var(b) && {Var(a), Var(b)} <= active0 && {Var(a), Var(b)} !! frozen
    requires Var(a) !in s.vals && Var(b) !in s.vals
    ensures a in reprs && (Var(a) in active && Var(b) in active <==> Val(reprs[a], s.vals) != 0)
  {
    hide Mutual, Representatives, Idempotent, Occurs, AllFates, Settled, Negations;
    assert Var(a) in {Var(a), Var(b)} && Var(b) in {Var(a), Var(b)};
    assert reprs[a] == reprs[b];
    OfVariable(reprs, a, s.vals);
    OfVariable(reprs, b, s.vals);
  }

  /** With 2 and 3 represented by 1 the clause [1, 2] becomes the unit 1, and both
      stay active. */
  lemma EquivalentOnesStay()
    ensures var reprs: map<Lit, Lit> := map[1 := 1, -1 := -1, 2 := 1, -2 := -1, 3 := 1, -3 := -1];
            && Rewritten([1, 2], 2, [1], map[], reprs)
            && StaysActive(2, map[1 := true], reprs) && StaysActive(3, map[1 := true], reprs)
  {
    var reprs: map<Lit, Lit> := map[1 := 1, -1 := -1, 2 := 1, -2 := -1, 3 := 1, -3 := -1];
    var c: Clause := [1, 2];
    assert Becomes(c[0], 1, map[], reprs);
  }

  /** Two entries for every variable that is retired. */
  ghost predicate RetiredPushed(g: Graph, active0: set<int>, active: set<int>, vals: map<int, bool>, es: seq<Entry>) {
    forall v :: v in active0 && v !in active && v !in vals ==>
      exists r: Lit :: v > 0 && Var(r) != v && Mutual(g, v as Lit, r) && PairIn(es, v, r)
  }

  lemma PairsPushed(g: Graph, s0: Database, s: Database, active0: set<int>, active: set<int>, reprs: map<Lit, Lit>,
        substituted: nat, maxVar: nat, id: nat)
    requires Usable(g, active0, reprs, substituted) && Replacing(s0, s, active0, active, reprs)
    requires forall v :: v in active0 ==> v <= maxVar
    ensures RetiredPushed(g, active0, active, s.vals, Equivalences(maxVar, active0, reprs, id))
  {
    hide Mutual, Representatives, Idempotent, Negations, AllFates, Settled, PairIn, Equivalences;
    var es := Equivalences(maxVar, active0, reprs, id);
    forall v | v in active0 && v !in active && v !in s.vals
      ensures exists r: Lit :: v > 0 && Var(r) != v && Mutual(g, v as Lit, r) && PairIn(es, v, r)
    {
      var l: Lit := v;
      RepresentativeAt(g, reprs, l);
      OtherVariable(g, reprs, l);
      TwoEntries(maxVar, active0, reprs, id, v);
    }
  }

  /** A representative is not the negation of a literal it represents. */
  lemma OtherVariable(g: Graph, reprs: map<Lit, Lit>, l: Lit)
    requires Representatives(g, reprs) && l in reprs && reprs[l] != l
    ensures Var(reprs[l]) != Var(l)
  {
    hide Mutual, Representatives;
    RepresentativeAt(g, reprs, l);
    assert Neg(Neg(l)) == l;
  }

  /** What the round needs of the representatives. */
  ghost predicate Usable(g: Graph, active: set<int>, reprs: map<Lit, Lit>, substituted: nat) {
    && Representatives(g, reprs) && Idempotent(reprs) && Negations(reprs)
    && (forall l :: l in reprs <==> Var(l) in active) && (forall v :: v in active ==> v > 0 && v as Lit in reprs)
    && (substituted == 0 <==> AllOwn(reprs))
  }

  /** Literals that are not frozen have the same representative exactly if they imply
      each other. */
  ghost predicate SameExactly(g: Graph, frozen: set<int>, reprs: map<Lit, Lit>) {
    forall a, b :: a in reprs && b in reprs && Var(a) !in frozen && Var(b) !in frozen ==>
      (reprs[a] == reprs[b] <==> Mutual(g, a, b))
  }

  /** The clauses of the entries hold. */
  ghost predicate EntriesHold(es: seq<Entry>, m: Model) {
    forall i :: 0 <= i < |es| ==> SatClause(es[i].clause, m)
  }

  /** The formula is equivalent to the new one together with the pushed clauses. */
  ghost predicate SameWith(f: Formula, g: Formula, es: seq<Entry>) {
    forall m: Model :: Models(m, f) <==> Models(m, g) && EntriesHold(es, m)
  }

  ghost predicate Entails(f: Formula, g: Formula) {
    forall m: Model :: Models(m, f) ==> Models(m, g)
  }

  lemma NothingDone(s: Database)
    ensures Reconstructs(Irredundant(s), [], Irredundant(s)) && SameWith(All(s), All(s), [])
    ensures Entails(Irredundant(s), Irredundant(s))
    ensures PushedGone([], s.literals, s.garbage)
  {
    hide Irredundant, All;
  }

  /** Equivalences variables do not occur any more. */
  ghost predicate PushedGone(es: seq<Entry>, literals: map<nat, Clause>, garbage: set<nat>) {
    forall i, r, l :: 0 <= i < |es| && r in literals && r !in garbage && l in literals[r] ==>
      l !in es[i].cube && Neg(l) !in es[i].cube
  }

  lemma ActiveVars(s: Database, clauses: seq<nat>, next: nat, active: set<int>, maxVar: nat)
    requires Wellformed(s, clauses, next, active, maxVar)
    ensures (forall v :: v in active ==> 1 <= v <= maxVar) && s.vals.Keys !! active
  {
  }

  lemma GraphRepresentatives(watches: WatchLists, active: set<int>, frozen: set<int>, reprs: map<Lit, Lit>)
    requires Represented(GraphOf(watches, active), Nodes(active), frozen, reprs) && reprs.Keys == Nodes(active)
    requires Skew(GraphOf(watches, active))
    ensures Representatives(GraphOf(watches, active), reprs)
  {
    hide Represented, Skew, Representatives, Edge, GraphOf, Nodes;
    var g := GraphOf(watches, active);
    forall l | l in Nodes(active)
      ensures Neg(l) in Nodes(active)
    {
      NodesOf(active, l);
      NodesOf(active, Neg(l));
    }
    forall x, y | Edge(g, x, y)
      ensures y in Nodes(active)
    {
      EdgeOf(watches, active, x, y);
      NodesOf(active, y);
    }
    RepresentedIsRepresentatives(g, Nodes(active), frozen, reprs);
  }

  lemma ActiveRepresented(active: set<int>, reprs: map<Lit, Lit>)
    requires reprs.Keys == Nodes(active)
    ensures forall v :: v in active && v > 0 ==> v as Lit in reprs
    ensures forall l :: l in reprs <==> Var(l) in active
  {
    forall l: Lit
      ensures l in reprs <==> Var(l) in active
    {
      NodesOf(active, l);
      assert l in reprs <==> l in reprs.Keys;
    }
  }

  lemma ConflictFound(s0: Database, watches: WatchLists, active: set<int>, parent: Lit, t: Database)
    requires Mutual(GraphOf(watches, active), parent, Neg(parent)) && Sound(s0) && t.unsat
    requires Watched(s0.literals, s0.garbage, watches) && BinaryLive(watches, s0.garbage)
    ensures Reconstructs(Irredundant(t), [], Irredundant(s0)) && SameWith(All(s0), All(t), [])
    ensures Entails(Irredundant(s0), Irredundant(t)) && Sound(t)
  {
    hide Mutual, Watched, BinaryLive, GraphOf;
    forall m: Model
      ensures !Models(m, All(s0)) && !Models(m, Irredundant(s0)) && !Models(m, All(t)) && !Models(m, Irredundant(t))
    {
      assert {} in All(t) && {} in Irredundant(t);
      if Models(m, All(s0)) {
        assert Live(s0.literals, s0.garbage) <= All(s0);
        ModelsEdges(s0.literals, s0.garbage, watches, active, m);
        ConflictUnsatisfiable(GraphOf(watches, active), parent, m);
      }
    }
  }

  lemma StartSubstituting(s: Database, clauses: seq<nat>, next: nat, active: set<int>, maxVar: nat, reprs: map<Lit,
        Lit>)
    requires Wellformed(s, clauses, next, active, maxVar) && forall l :: l in reprs <==> Var(l) in active
    ensures Substituting(s, s, clauses, 0, |clauses|, next, {}, reprs)
  {
    hide Rewrites, Settled;
    RewritesNothing(s, reprs);
    assert clauses[0..|clauses|] == clauses;
    forall r | r in s.literals && r !in s.garbage
      ensures Known(s.literals[r], s.vals, reprs)
    {
    }
    forall l: Lit
      ensures Var(l) in s.vals ==> l !in reprs
    {
      assert Var(l) in s.vals ==> Var(l) in s.vals.Keys;
    }
  }

  /** Replaying the entries keeps models of settled clauses and units. */
  lemma SettledModel(s: Database, out: set<nat>, g: Graph, active: set<int>, k: nat, reprs: map<Lit, Lit>, id: nat,
        m: Model)
    requires Representatives(g, reprs) && Positive(s.vals) && UnitsSettled(s.vals, reprs) && !s.unsat
    requires forall r :: r in s.literals && r !in out ==> Settled(s.literals[r], reprs)
    ensures Models(m, FormulaOf(s.literals, out, s.vals, s.unsat)) <==>
      Models(Replay(Equivalences(k, active, reprs, id), m), FormulaOf(s.literals, out, s.vals, s.unsat))
  {
    hide Replay, Equivalences, Representatives, Settled, FormulaOf, SatClause, Repaired, Models, UnitsSettled;
    var n := Replay(Equivalences(k, active, reprs, id), m);
    ReplayEquivalences(k, g, active, reprs, id, m);
    ModelParts(s.literals, out, s.vals, s.unsat, m);
    ModelParts(s.literals, out, s.vals, s.unsat, n);
    forall r | r in s.literals && r !in out
      ensures SatClause(s.literals[r], m) <==> SatClause(s.literals[r], n)
    {
      SettledKept(s.literals[r], k, g, active, reprs, id, m);
    }
    forall v | v in s.vals
      ensures v in m <==> v in n
    {
      UnitNotPushed(g, active, s.vals, reprs, v);
      Unrepaired(k, active, reprs, m, n, v as Lit);
    }
  }

  lemma UnitNotPushed(g: Graph, active: set<int>, vals: map<int, bool>, reprs: map<Lit, Lit>, v: int)
    requires UnitsSettled(vals, reprs) && v in vals && v > 0
    ensures !Substituted(v, active, reprs)
  {
    var l: Lit := v;
    assert Var(l) in vals;
  }

  /** The clauses pushed hold exactly if substituted variables have the values of
      their representatives. */
  lemma {:induction false} EquivalencesHold(k: nat, active: set<int>, reprs: map<Lit, Lit>, id: nat, m: Model)
    ensures EntriesHold(Equivalences(k, active, reprs, id), m) <==>
      forall v: Lit :: 1 <= v <= k && Substituted(v, active, reprs) ==> (True(v, m) <==> True(reprs[v], m))
  {
    hide True, Substituted;
    if k > 0 {
      EquivalencesHold(k - 1, active, reprs, id, m);
      var before := Equivalences(k - 1, active, reprs, id);
      if Substituted(k, active, reprs) {
        var es := Equivalence(k, SubstitutedBy(k, active, reprs), id + |before|);
        PairHolds(k, SubstitutedBy(k, active, reprs), id + |before|, m);
        HoldConcat(before, es, m);
        assert Equivalences(k, active, reprs, id) == before + es;
      } else {
        assert Equivalences(k, active, reprs, id) == before;
      }
    } else {
      assert Equivalences(k, active, reprs, id) == [];
    }
  }

  ghost function SubstitutedBy(v: int, active: set<int>, reprs: map<Lit, Lit>): (r: Lit)
    requires Substituted(v, active, reprs)
    ensures v > 0 && v as Lit in reprs && r == reprs[v as Lit]
  {
    reprs[v as Lit]
  }

  lemma PairHolds(v: int, r: Lit, id: nat, m: Model)
    requires v > 0
    ensures EntriesHold(Equivalence(v, r, id), m) <==> (True(v as Lit, m) <==> True(r, m))
  {
    var l: Lit := v;
    var es := Equivalence(v, r, id);
    TwoLits(Neg(l), r, m);
    TwoLits(l, Neg(r), m);
    assert es[0].clause == [Neg(l), r] && es[1].clause == [l, Neg(r)];
    OppositeValues(l, m);
    OppositeValues(r, m);
  }

  lemma HoldConcat(a: seq<Entry>, b: seq<Entry>, m: Model)
    ensures EntriesHold(a + b, m) <==> EntriesHold(a, m) && EntriesHold(b, m)
  {
    if EntriesHold(a + b, m) {
      forall i | 0 <= i < |a|
        ensures SatClause(a[i].clause, m)
      {
        assert (a + b)[i] == a[i];
      }
      forall i | 0 <= i < |b|
        ensures SatClause(b[i].clause, m)
      {
        assert (a + b)[|a| + i] == b[i];
      }
    }
  }

  lemma HoldRespects(k: nat, g: Graph, active: set<int>, reprs: map<Lit, Lit>, id: nat, m: Model)
    requires Representatives(g, reprs) && forall l :: l in reprs ==> Var(l) in active && Var(l) <= k
    ensures EntriesHold(Equivalences(k, active, reprs, id), m) <==> Respects(m, reprs)
  {
    hide Representatives, True, Equivalences, EntriesHold;
    EquivalencesHold(k, active, reprs, id, m);
    if EntriesHold(Equivalences(k, active, reprs, id), m) {
      forall l | l in reprs
        ensures True(l, m) <==> True(reprs[l], m)
      {
        RepresentativeAt(g, reprs, l);
        var v: Lit := Var(l);
        assert l == v || l == Neg(v);
        RepresentativeAt(g, reprs, v);
        assert reprs[v] != v ==> Substituted(v, active, reprs);
        assert True(v, m) <==> True(reprs[v], m);
        OppositeValues(v, m);
        OppositeValues(reprs[v], m);
      }
    }
  }

  /** What one round establishes. */
  lemma RoundDone(s0: Database, t: Database, watches: WatchLists, active: set<int>, maxVar: nat, reprs: map<Lit, Lit>,
        id: nat)
    requires Sound(s0) && Watched(s0.literals, s0.garbage, watches) && BinaryLive(watches, s0.garbage)
    requires Representatives(GraphOf(watches, active), reprs)
    requires forall l :: l in reprs ==> Var(l) in active && Var(l) <= maxVar
    requires Rewrites(s0, t, reprs) && Positive(t.vals) && UnitsSettled(t.vals, reprs)
    requires !t.unsat ==> forall r :: r in t.literals && r !in t.garbage ==> Settled(t.literals[r], reprs)
    ensures var es := Equivalences(maxVar, active, reprs, id);
            && Reconstructs(Irredundant(t), es, Irredundant(s0)) && SameWith(All(s0), All(t), es)
            && Entails(Irredundant(s0), Irredundant(t)) && Sound(t)
  {
    hide Watched, BinaryLive, GraphOf, Representatives, Respects, Equivalences, Replay, Settled, UnitsSettled,
         FormulaOf, Models, EntriesHold;
    var g, es := GraphOf(watches, active), Equivalences(maxVar, active, reprs, id);
    forall m: Model
      ensures Models(m, All(s0)) ==> Respects(m, reprs)
      ensures EntriesHold(es, m) <==> Respects(m, reprs)
      ensures Models(m, All(t)) ==> Models(m, Irredundant(t))
      ensures Models(m, Irredundant(t)) ==> Models(Replay(es, m), Irredundant(s0)) && Models(m, All(t))
    {
      FormulaRespects(s0, watches, active, reprs, m);
      HoldRespects(maxVar, g, active, reprs, id, m);
      FewerClauses(t, m);
      if Models(m, Irredundant(t)) {
        NotUnsat(t, m);
        SettledModel(t, t.garbage + t.redundant, g, active, maxVar, reprs, id, m);
        SettledModel(t, t.garbage, g, active, maxVar, reprs, id, m);
        ReplayRespects(maxVar, g, active, reprs, id, m);
        var n := Replay(es, m);
        assert Models(n, Irredundant(s0)) && Models(n, All(s0)) && Models(n, All(t));
      }
    }
  }

  lemma FormulaRespects(s: Database, watches: WatchLists, active: set<int>, reprs: map<Lit, Lit>, m: Model)
    requires Watched(s.literals, s.garbage, watches) && BinaryLive(watches, s.garbage)
    requires Representatives(GraphOf(watches, active), reprs)
    ensures Models(m, All(s)) ==> Respects(m, reprs)
  {
    hide Watched, BinaryLive, GraphOf, Representatives;
    if Models(m, All(s)) {
      assert Live(s.literals, s.garbage) <= All(s);
      ModelsEdges(s.literals, s.garbage, watches, active, m);
      ModelsRespect(GraphOf(watches, active), reprs, m);
    }
  }

  lemma FewerClauses(t: Database, m: Model)
    ensures Models(m, All(t)) ==> Models(m, Irredundant(t))
  {
    assert Irredundant(t) <= All(t);
  }

  lemma NotUnsat(t: Database, m: Model)
    requires Models(m, Irredundant(t))
    ensures !t.unsat
  {
    assert t.unsat ==> {} in Irredundant(t);
  }

  lemma StillWellformed(s0: Database, t: Database, clauses: seq<nat>, next: nat, active0: set<int>, active1: set<int>,
        active: set<int>, maxVar: nat, reprs: map<Lit, Lit>)
    requires forall v :: v in active0 ==> 1 <= v <= maxVar
    requires Positive(t.vals) && active1 == active0 - (t.vals.Keys - s0.vals.Keys) && s0.vals.Keys !! active0
    requires active <= active1
    requires forall v :: v in active1 && v <= maxVar ==>
      v as Lit in reprs && (v !in active <==> reprs[v as Lit] != v && Val(reprs[v as Lit], t.vals) == 0)
    requires (forall l :: l in reprs <==> Var(l) in active0) && Negations(reprs)
    requires forall r :: r in t.literals ==> r < next && |t.literals[r]| >= 2
    requires forall r :: r in t.garbage || r in t.redundant ==> r < next
    requires (forall r :: r in clauses ==> r in t.literals)
    requires (forall r :: r in t.literals && r !in t.garbage ==> r in clauses)
    requires forall r :: r in t.literals && r !in t.garbage ==>
      Settled(t.literals[r], reprs) && Known(t.literals[r], t.vals, reprs)
    ensures Wellformed(t, clauses, next, active, maxVar)
  {
    forall r, l | r in t.literals && r !in t.garbage && l in t.literals[r]
      ensures Var(l) in active || Var(l) in t.vals
    {
      if Val(l, t.vals) == 0 {
        assert l in reprs && reprs[l] == l;
        assert NegationOf(reprs, l);
        assert Var(l) as Lit == l || Var(l) as Lit == Neg(l);
        assert Var(l) in active1;
      }
    }
  }

  lemma {:induction false} PushedCubes(k: nat, active: set<int>, reprs: map<Lit, Lit>, id: nat, i: nat)
    requires i < |Equivalences(k, active, reprs, id)|
    ensures var e := Equivalences(k, active, reprs, id)[i]; |e.cube| == 1 && Substituted(Var(e.cube[0]), active, reprs)
  {
    hide Substituted;
    var before := Equivalences(k - 1, active, reprs, id);
    if i < |before| {
      PushedCubes(k - 1, active, reprs, id, i);
    } else {
      var es := Equivalence(k, SubstitutedBy(k, active, reprs), id + |before|);
      assert Equivalences(k, active, reprs, id)[i] == es[i - |before|];
    }
  }

  lemma RepresentedGone(g: Graph, t: Database, active: set<int>, maxVar: nat, reprs: map<Lit, Lit>, id: nat)
    requires Representatives(g, reprs)
    requires forall r :: r in t.literals && r !in t.garbage ==> Settled(t.literals[r], reprs)
    ensures PushedGone(Equivalences(maxVar, active, reprs, id), t.literals, t.garbage)
  {
    hide Representatives, Equivalences, Substituted;
    var es := Equivalences(maxVar, active, reprs, id);
    forall i, r, l | 0 <= i < |es| && r in t.literals && r !in t.garbage && l in t.literals[r]
      ensures l !in es[i].cube && Neg(l) !in es[i].cube
    {
      PushedCubes(maxVar, active, reprs, id, i);
      assert Settled(t.literals[r], reprs);
      if l in reprs {
        RepresentativeStays(g, active, reprs, l);
      } else {
        NotSubstituted(g, active, reprs, l);
      }
    }
  }
}

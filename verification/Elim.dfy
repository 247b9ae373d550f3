/** Clause operations of bounded variable elimination: root-level propagation over
    occurrence lists and resolution with on-the-fly strengthening. */
module Elim {
  import opened Logic
  import opened Reconstruction
  import opened Clauses
  import opened UnitClosure
  import opened Elimination

  /** References are below `next`, clauses have no repeated or complementary
      literals, and the occurrence lists reach all clauses that are not garbage. */
  ghost predicate Connected(literals: map<nat, Clause>, garbage: set<nat>, occs: map<Lit, seq<nat>>, vars: set<int>,
        next: nat) {
    && (forall r :: r in literals ==> r < next && NoDuplicates(literals[r]) && ClauseVars(literals[r]) <= vars)
    && (forall r :: r in literals ==> Consistent(Lits(literals[r])))
    && (forall l :: l in occs ==> NoDuplicates(occs[l]))
    && (forall l, r :: l in occs && r in occs[l] ==> r in literals && l in literals[r])
    && (forall r, l :: r in literals && r !in garbage && l in literals[r] ==> l in occs && r in occs[l])
    && (forall l: Lit :: Var(l) in vars ==> l in occs)
    && (forall v :: v in vars ==> v > 0) && forall r :: r in garbage ==> r < next
  }

  ghost predicate Consistent(c: set<Lit>) {
    forall l :: l in c ==> Neg(l) !in c
  }

  /** The literals of a clause that have no value. */
  ghost function Actual(c: Clause, vals: map<int, bool>): set<Lit> {
    set l | l in c && Val(l, vals) == 0
  }

  /** Assigned literals do not matter unless they are true. */
  lemma ActualHolds(f: Formula, vals: map<int, bool>, c: Clause, m: Model)
    requires Units(vals) <= f && Models(m, f) && SatClause(c, m) && (forall v :: v in vals ==> v > 0)
    requires forall l :: l in c ==> Val(l, vals) <= 0
    ensures SatLits(Actual(c, vals), m)
  {
    AgreesUnits(m, vals);
    var l :| l in c && True(l, m);
    AgreesTrue(m, vals, l);
    assert l in Actual(c, vals);
  }

  lemma UnitsOfFormula(literals: map<nat, Clause>, garbage: set<nat>, vals: map<int, bool>, unsat: bool)
    ensures Units(vals) <= FormulaOf(literals, garbage, vals, unsat)
  {
  }

  // ------------------------------------------------------------ single steps

  /** A satisfied clause is dropped. */
  lemma DropSatisfied(literals: map<nat, Clause>, garbage: set<nat>, vals: map<int, bool>, unsat: bool, r: nat, l: Lit,
        p: Lit)
    requires r in literals && l in literals[r] && Val(l, vals) > 0 && Val(p, vals) == 0
    requires forall v :: v in vals ==> v > 0
    ensures Advances(FormulaOf(literals, garbage, vals, unsat), FormulaOf(literals, garbage + {r}, vals, unsat), p)
    ensures Implied(Without(FormulaOf(literals, garbage + {r}, vals, unsat), p), Lits(literals[r]) - {p, Neg(p)})
  {
    var f, g := FormulaOf(literals, garbage, vals, unsat), FormulaOf(literals, garbage + {r}, vals, unsat);
    var c := Lits(literals[r]);
    WithoutUnits(literals, garbage + {r}, vals, unsat, p);
    forall m: Model | Models(m, Without(g, p))
      ensures SatLits(c - {p, Neg(p)}, m)
    {
      AgreesUnits(m, vals);
      AgreesTrue(m, vals, l);
      assert l in c - {p, Neg(p)};
    }
    GarbageFormula(literals, garbage, vals, unsat, r);
    RemoveImplied(f, g, p, c);
  }

  /** The unit clauses do not contain an unassigned pivot. */
  lemma WithoutUnits(literals: map<nat, Clause>, garbage: set<nat>, vals: map<int, bool>, unsat: bool, p: Lit)
    requires Val(p, vals) == 0
    ensures Units(vals) <= Without(FormulaOf(literals, garbage, vals, unsat), p)
  {
  }

  lemma GarbageFormula(literals: map<nat, Clause>, garbage: set<nat>, vals: map<int, bool>, unsat: bool, r: nat)
    requires r in literals
    ensures var f, g := FormulaOf(literals, garbage, vals, unsat), FormulaOf(literals, garbage + {r}, vals, unsat);
            g <= f <= g + {Lits(literals[r])}
  {
  }

  /** Equivalence alone does not need the pivot to be unassigned. */
  lemma DropSatisfiedEquivalent(literals: map<nat, Clause>, garbage: set<nat>, vals: map<int, bool>, unsat: bool,
        r: nat, l: Lit)
    requires r in literals && l in literals[r] && Val(l, vals) > 0 && forall v :: v in vals ==> v > 0
    ensures Equivalent(FormulaOf(literals, garbage, vals, unsat), FormulaOf(literals, garbage + {r}, vals, unsat))
  {
    GarbageFormula(literals, garbage, vals, unsat, r);
    var g := FormulaOf(literals, garbage + {r}, vals, unsat);
    forall m: Model | Models(m, g)
      ensures SatLits(Lits(literals[r]), m)
    {
      UnitsOfFormula(literals, garbage + {r}, vals, unsat);
      AgreesUnits(m, vals);
      AgreesTrue(m, vals, l);
      assert l in Lits(literals[r]);
    }
  }

  /** An implied literal is assigned. */
  lemma NewUnit(literals: map<nat, Clause>, garbage: set<nat>, vals: map<int, bool>, unsat: bool, l: Lit)
    requires Val(l, vals) == 0
    ensures FormulaOf(literals, garbage, SetFalse(Neg(l), vals), unsat) ==
      FormulaOf(literals, garbage, vals, unsat) + {{l}}
  {
    var now := SetFalse(Neg(l), vals);
    forall c
      ensures c in Units(now) <==> c in Units(vals) + {{l}}
    {
      if c in Units(now) {
        var v :| v in now && v > 0 && c == {(if now[v] then v else 0 - v) as Lit};
        if v != Var(l) {
          assert v in vals;
        }
      }
      if c in Units(vals) {
        var v :| v in vals && v > 0 && c == {(if vals[v] then v else 0 - v) as Lit};
        assert v in now && now[v] == vals[v];
      }
      if c == {l} {
        assert Var(l) in now && now[Var(l)] == (l > 0);
      }
    }
  }

  // ------------------------------------------------------------------ states

  datatype State = State(literals: map<nat, Clause>, garbage: set<nat>, vals: map<int, bool>, unsat: bool)

  ghost function F(s: State): Formula {
    FormulaOf(s.literals, s.garbage, s.vals, s.unsat)
  }

  /** What all steps keep: the clauses remain equivalent and, unless the pivot `p`
      got a value, only become stronger without it. */
  ghost predicate Keeps(s: State, t: State, p: Lit) {
    && (forall r :: r in s.literals ==> r in t.literals && t.literals[r] == s.literals[r])
    && s.garbage <= t.garbage && (s.unsat ==> t.unsat)
    && (forall v :: v in s.vals ==> v in t.vals && t.vals[v] == s.vals[v])
    && Equivalent(F(s), F(t))
    && (Val(p, t.vals) == 0 ==> Advances(F(s), F(t), p))
  }

  /** Once a gate is known, clauses must also not be dropped for a copy. */
  ghost predicate Moves(s: State, t: State, p: Lit) {
    Keeps(s, t, p) && (Val(p, t.vals) == 0 ==> Dispensable(s, t, p))
  }

  lemma KeepsTrans(s: State, t: State, u: State, p: Lit)
    requires Keeps(s, t, p) && Keeps(t, u, p)
    ensures Keeps(s, u, p)
  {
    hide F, Advances, Equivalent;
    EquivalentTrans(F(s), F(t), F(u));
    if Val(p, u.vals) == 0 {
      assert Val(p, t.vals) == 0;
      AdvancesTrans(F(s), F(t), F(u), p);
    }
  }

  /** A clause was dropped only if the others imply it even without `p`. */
  ghost predicate Dispensable(s: State, t: State, p: Lit) {
    forall r :: r in s.literals && r !in s.garbage && r in t.garbage ==>
      Implied(Without(F(t), p), Lits(s.literals[r]) - {p, Neg(p)})
  }

  lemma MovesNot(s: State, p: Lit)
    ensures Moves(s, s, p)
  {
    AdvancesNot(F(s), p);
  }

  lemma MovesTrans(s: State, t: State, u: State, p: Lit)
    requires Moves(s, t, p) && Moves(t, u, p)
    ensures Moves(s, u, p)
  {
    hide F, Advances, Equivalent, Implied;
    KeepsTrans(s, t, u, p);
    if Val(p, u.vals) == 0 {
      assert Val(p, t.vals) == 0;
      forall r | r in s.literals && r !in s.garbage && r in u.garbage
        ensures Implied(Without(F(u), p), Lits(s.literals[r]) - {p, Neg(p)})
      {
        if r in t.garbage {
          ImpliedLater(F(t), F(u), p, Lits(s.literals[r]) - {p, Neg(p)});
        }
      }
    }
  }

  lemma MovesFacts(s: State, t: State, p: Lit)
    requires Moves(s, t, p)
    ensures s.garbage <= t.garbage && (s.unsat ==> t.unsat)
    ensures forall v :: v in s.vals ==> v in t.vals && t.vals[v] == s.vals[v]
    ensures forall r :: r in s.literals ==> r in t.literals && t.literals[r] == s.literals[r]
    ensures Equivalent(F(s), F(t))
  {
  }

  lemma EquivalentTrans(f: Formula, g: Formula, h: Formula)
    requires Equivalent(f, g) && Equivalent(g, h)
    ensures Equivalent(f, h)
  {
    forall m: Model
      ensures Models(m, f) <==> Models(m, h)
    {
      assert Models(m, f) <==> Models(m, g);
    }
  }

  lemma GarbageMoves(s: State, r: nat, l: Lit, p: Lit)
    requires r in s.literals && l in s.literals[r] && Val(l, s.vals) > 0 && forall v :: v in s.vals ==> v > 0
    ensures Moves(s, s.(garbage := s.garbage + {r}), p)
  {
    DropSatisfiedEquivalent(s.literals, s.garbage, s.vals, s.unsat, r, l);
    if Val(p, s.vals) == 0 {
      DropSatisfied(s.literals, s.garbage, s.vals, s.unsat, r, l, p);
    }
  }

  lemma UnitMoves(s: State, l: Lit, p: Lit)
    requires Val(l, s.vals) == 0 && Implied(F(s), {l})
    ensures Moves(s, s.(vals := SetFalse(Neg(l), s.vals)), p)
  {
    NewUnit(s.literals, s.garbage, s.vals, s.unsat, l);
    var t := s.(vals := SetFalse(Neg(l), s.vals));
    assert F(t) == F(s) + {{l}};
    forall m: Model
      ensures Models(m, F(s)) <==> Models(m, F(t))
    {
    }
    if Val(p, t.vals) == 0 {
      AddImplied(F(s), {l}, p);
    }
  }

  lemma EmptyMoves(s: State, p: Lit)
    requires Implied(F(s), {})
    ensures Moves(s, s.(unsat := true), p)
  {
    var t := s.(unsat := true);
    assert F(t) == F(s) + {{}};
    forall m: Model
      ensures !Models(m, F(s)) && !Models(m, F(t))
    {
      assert Models(m, F(s)) ==> SatLits({}, m);
    }
    AddImplied(F(s), {}, p);
  }

  /** A clause without true literals implies its unassigned part. */
  lemma ClauseImpliesActual(s: State, r: nat)
    requires r in s.literals && r !in s.garbage && forall v :: v in s.vals ==> v > 0
    requires forall l :: l in s.literals[r] ==> Val(l, s.vals) <= 0
    ensures Implied(F(s), Actual(s.literals[r], s.vals))
  {
    forall m: Model | Models(m, F(s))
      ensures SatLits(Actual(s.literals[r], s.vals), m)
    {
      assert Lits(s.literals[r]) in F(s);
      SatLitsOfClause(s.literals[r], m);
      ActualHolds(F(s), s.vals, s.literals[r], m);
    }
  }

  /** A gate clause forces `p`: its other literals are false. */
  ghost predicate ForcedBy(literals: map<nat, Clause>, gate: set<nat>, p: Lit, m: Model) {
    exists r :: r in gate && r in literals && p in literals[r] && !SatLits(Rest(Lits(literals[r]), p), m)
  }

  /** The gate clauses force the pivot to exactly one value, whatever the values of
      the other variables are. */
  ghost predicate IsGate(s: State, gate: set<nat>, p: Lit) {
    && (forall r :: r in gate ==> r in s.literals && r !in s.garbage)
    && forall m: Model :: Models(m, Without(F(s), p)) ==>
      (ForcedBy(s.literals, gate, p, m) <==> !ForcedBy(s.literals, gate, Neg(p), m))
  }

  /** The clauses in `gone` are replaced by one new clause. */
  ghost predicate Replaces(s0: State, s: State, gone: set<nat>, ls: set<Lit>) {
    && s.vals == s0.vals && s.unsat == s0.unsat && s.garbage == s0.garbage + gone
    && exists r :: NewClauseIs(s0, s, r, ls)
  }

  ghost predicate NewClauseIs(s0: State, s: State, r: nat, ls: set<Lit>) {
    && r !in s0.literals && r in s.literals && r !in s.garbage
    && s.literals == s0.literals[r := s.literals[r]] && Lits(s.literals[r]) == ls
  }

  ghost predicate Clash(c: Clause, d: Clause, pivot: Lit, vals: map<int, bool>) {
    exists l :: l in Actual(d, vals) && l != Neg(pivot) && Neg(l) in Actual(c, vals)
  }

  /** What resolving `c` and `d` leads to, `c` being looked at first: a satisfied
      antecedent is dropped; nothing happens if the resolvent is a tautology; an empty
      one makes the clauses unsatisfiable, and a single literal is assigned; an
      antecedent that contains the resolvent is replaced by it; otherwise the resolvent
      is needed. */
  ghost predicate Outcome(s0: State, s: State, c: nat, d: nat, pivot: Lit, eagerly: bool, needed: bool)
    requires c in s0.literals && d in s0.literals
  {
    var f, g := s0.literals[c], s0.literals[d];
    var (a, b) := (Actual(f, s0.vals), Actual(g, s0.vals));
    var r := (a + b) - {pivot, Neg(pivot)};
    if HasTrue(f, s0.vals) then !needed && s == s0.(garbage := s0.garbage + {c})
    else if HasTrue(g, s0.vals) && !Clash(f, g, pivot, s0.vals) then
      !needed && s == s0.(garbage := s0.garbage + {d})
    else if HasTrue(g, s0.vals) then !needed && (s == s0.(garbage := s0.garbage + {d}) || s == s0)
    else if Clash(f, g, pivot, s0.vals) then !needed && s == s0
    else if r == {} then !needed && s == s0.(unsat := true)
    else if exists u: Lit :: r == {u} then
      !needed && forall u: Lit :: r == {u} ==>
        Val(u, s.vals) > 0 && (!eagerly ==> s == s0.(vals := SetFalse(Neg(u), s0.vals)))
    else if b - {Neg(pivot)} <= a || a - {pivot} <= b then
      !needed
      && Replaces(s0, s, (if b - {Neg(pivot)} <= a then {c} else {}) + (if a - {pivot} <= b then {d} else {}), r)
    else needed && s == s0
  }

  /** What a clause amounts to under the root-level assignment. */
  datatype Status = Satisfied(l: Lit) | Falsified | Unit(u: Lit) | Open

  /** The unassigned literals of two clauses but the pivot are just `u`. */
  ghost predicate UnitResolvent(s: State, c: nat, d: nat, p: Lit, u: Lit) {
    && c in s.literals && d in s.literals && c !in s.garbage && d !in s.garbage
    && !HasTrue(s.literals[c], s.vals) && !HasTrue(s.literals[d], s.vals)
    && (Actual(s.literals[c], s.vals) + Actual(s.literals[d], s.vals)) - {p, Neg(p)} == {u}
  }

  lemma UnitLists(s: State, c: nat, d: nat, p: Lit, pivot: Lit, u: Lit, first: seq<Lit>, lits: seq<Lit>)
    requires UnitResolvent(s, c, d, p, u) && (p == pivot || p == Neg(pivot))
    requires Lits(first) == Actual(s.literals[c], s.vals) - {pivot} && Neg(pivot) !in s.literals[c]
    requires Lits(lits) == Lits(first) + (Actual(s.literals[d], s.vals) - {Neg(pivot)}) && pivot !in s.literals[d]
    requires NoDuplicates(lits)
    ensures lits == [u]
  {
    assert Neg(Neg(pivot)) == pivot;
    assert Lits(lits) == {u};
    SizeOf(lits);
    assert |lits| == 1 && lits[0] in Lits(lits);
  }

  lemma UnitEither(s: State, c: nat, d: nat, p: Lit)
    ensures forall u: Lit :: UnitResolvent(s, c, d, p, u) ==> UnitResolvent(s, d, c, p, u)
    ensures forall u: Lit :: UnitResolvent(s, c, d, p, u) ==> c !in s.garbage && d !in s.garbage
  {
    if c in s.literals && d in s.literals {
      var a, b := Actual(s.literals[c], s.vals), Actual(s.literals[d], s.vals);
      assert a + b == b + a;
    }
  }

  lemma NoUnitSatisfied(s: State, c: nat, d: nat, p: Lit, l: Lit)
    requires c in s.literals && d in s.literals && (l in s.literals[c] || l in s.literals[d]) && Val(l, s.vals) > 0
    ensures forall u: Lit :: !UnitResolvent(s, c, d, p, u)
  {
  }

  lemma NoUnitTautology(s: State, c: nat, d: nat, p: Lit, pivot: Lit, first: seq<Lit>, l: Lit)
    requires (p == pivot || p == Neg(pivot)) && c in s.literals && d in s.literals
    requires Lits(first) == Actual(s.literals[c], s.vals) - {pivot} && Neg(pivot) !in s.literals[c]
    requires l in s.literals[d] && l != Neg(pivot) && Neg(l) in first && pivot !in s.literals[d]
    ensures forall u: Lit :: !UnitResolvent(s, c, d, p, u)
  {
    assert Neg(l) in Lits(first);
    assert l in Actual(s.literals[d], s.vals) && Neg(l) in Actual(s.literals[c], s.vals);
    assert Neg(l) != Neg(pivot) && l != pivot && Neg(Neg(pivot)) == pivot;
    var rest := (Actual(s.literals[c], s.vals) + Actual(s.literals[d], s.vals)) - {p, Neg(p)};
    assert l in rest && Neg(l) in rest && l != Neg(l);
  }

  class Eliminator {
    const vars: set<int>
    var literals: map<nat, Clause>
    var garbage: set<nat>
    var occs: map<Lit, seq<nat>>
    var vals: map<int, bool>
    var unsat: bool
    var next: nat               // the reference of the next new clause
    var clause: seq<Lit>
    var gate: set<nat>
    var gates: seq<nat>
    var marks: map<int, int>    // zero where there is no entry
    var markedStack: seq<Lit>   // the literals marked in binary clauses
    var extension: seq<Entry>

    ghost predicate Valid()
      reads this`literals, this`garbage, this`occs, this`vals, this`next
    {
      Connected(literals, garbage, occs, vars, next) && vals.Keys <= vars
    }

    ghost function S(): State
      reads this`literals, this`garbage, this`vals, this`unsat
    {
      State(literals, garbage, vals, unsat)
    }

    method Classify(c: Clause) returns (status: Status)
      ensures status.Satisfied? ==> status.l in c && Val(status.l, vals) > 0
      ensures !status.Satisfied? ==> forall l :: l in c ==> Val(l, vals) <= 0
      ensures status == Falsified ==> Actual(c, vals) == {}
      ensures status.Unit? ==> Actual(c, vals) == {status.u}
      ensures status == Open ==> exists i, j :: 0 <= i < j < |c| && Val(c[i], vals) == 0 && Val(c[j], vals) == 0
    {
      status := Falsified;
      for i := 0 to |c|
        invariant !status.Satisfied? && forall k :: 0 <= k < i ==> Val(c[k], vals) <= 0
        invariant status == Falsified ==> forall k :: 0 <= k < i ==> Val(c[k], vals) < 0
        invariant status.Unit? ==> exists j :: 0 <= j < i && c[j] == status.u && Val(c[j], vals) == 0
                                     && forall k :: 0 <= k < i && k != j ==> Val(c[k], vals) < 0
        invariant status == Open ==> exists k, j :: 0 <= k < j < i && Val(c[k], vals) == 0 && Val(c[j], vals) == 0
      {
        var tmp := Val(c[i], vals);
        if tmp < 0 {
          continue;
        }
        if tmp > 0 {
          return Satisfied(c[i]);
        }
        status := if status == Falsified then Unit(c[i]) else Open;
      }
    }

    method MarkSatisfied(c: nat, l: Lit, ghost p: Lit)
      requires Valid() && c in literals && l in literals[c] && Val(l, vals) > 0
      modifies this`garbage
      ensures Valid() && garbage == old(garbage) + {c} && Moves(old(S()), S(), p)
    {
      hide Moves;
      ValuesPositive(literals, garbage, occs, vars, next, vals);
      GarbageMoves(S(), c, l, p);
      MoreGarbage(literals, garbage, occs, vars, next, c);
      garbage := garbage + {c};
    }

    method AssignUnit(l: Lit, ghost p: Lit)
      requires Valid() && Val(l, vals) == 0 && Var(l) in vars && Implied(F(S()), {l})
      modifies this`vals
      ensures Valid() && vals == SetFalse(Neg(l), old(vals)) && Moves(old(S()), S(), p)
      ensures Free(vars, vals) < Free(vars, old(vals))
    {
      hide Moves, Connected, Implied;
      UnitMoves(S(), l, p);
      FewerUnassigned(vals, vars, Neg(l));
      vals := SetFalse(Neg(l), vals);
    }

    method LearnEmptyClause(ghost p: Lit)
      requires Implied(F(S()), {})
      modifies this`unsat
      ensures unsat && Moves(old(S()), S(), p)
    {
      hide Moves, Implied;
      EmptyMoves(S(), p);
      unsat := true;
    }

    /** `elim_propagate`: clauses with a new true literal are dropped, and no clause
        with a new false one is left unit or empty. */
    method Propagate(root: Lit, ghost p: Lit)
      requires Valid() && Val(root, vals) > 0
      modifies this`garbage, this`vals, this`unsat
      ensures Valid() && Moves(old(S()), S(), p) && NewGarbage(old(garbage), garbage, literals, vals)
      ensures !unsat ==>
        forall l :: Val(l, vals) > 0 && (l == root || Val(l, old(vals)) == 0) ==>
          Dropped(l, occs, garbage) && QuietOn(l, literals, garbage, occs, vals)
    {
      hide Moves, Connected, Free, Dropped, NewGarbage, Val, AllTrue, InWork, AllHeld, QuietOn;
      var work := [root];
      var i := 0;
      MovesNot(S(), p);
      NothingHeld(literals, garbage, occs, vals, vals, [], []);
      NoNewGarbage(garbage, literals, vals);
      StartWork(vals, vars, root);
      while i < |work|
        invariant 0 <= i <= |work| && Valid() && Moves(old(S()), S(), p)
        invariant NewGarbage(old(garbage), garbage, literals, vals)
        invariant AllTrue(work, vals, vars) && InWork(old(vals), vals, root, work)
        invariant !unsat ==> forall k :: 0 <= k < i ==> Dropped(work[k], occs, garbage)
        invariant AllHeld(literals, garbage, occs, vals, old(vals), work[..i])
        decreases Free(vars, vals) + |work| - i
      {
        var lit := work[i];
        TrueAt(work, vals, vars, i);
        i := i + 1;
        ghost var s1 := S();
        ghost var work1 := work;
        work := PropagateNegative(lit, work, root, old(vals), work[..i-1], p);
        assert work[..i] == work1[..i-1] + [lit];
        MovesFacts(s1, S(), p);
        MovesTrans(old(S()), s1, S(), p);
        GarbageTrans(old(garbage), s1.garbage, garbage, literals, s1.vals, vals);
        StillDropped(work1, i - 1, occs, s1.garbage, garbage);
        if unsat {
          break;
        }
        ghost var s2 := S();
        TrueAt(work, vals, vars, i - 1);
        DropPositive(lit, p);
        MovesFacts(s2, S(), p);
        AllHeldLater(literals, s2.garbage, garbage, occs, vals, vals, old(vals), work[..i]);
        MovesTrans(old(S()), s2, S(), p);
        GarbageTrans(old(garbage), s2.garbage, garbage, literals, s2.vals, vals);
        StillDropped(work1, i - 1, occs, s2.garbage, garbage);
      }
      assert work[..|work|] == work;
      WorkDone(old(vals), vals, root, work, literals, occs, garbage, unsat, i);
    }

    /** One clause with a false literal. */
    method VisitNegative(c: nat, work0: seq<Lit>, ghost root: Lit, ghost vals0: map<int, bool>, ghost done: seq<Lit>,
          ghost p: Lit)
      returns (work: seq<Lit>)
      requires Valid() && c in literals && c !in garbage && done <= work0
      requires AllTrue(work0, vals, vars) && InWork(vals0, vals, root, work0)
      modifies this`garbage, this`vals, this`unsat
      ensures Valid() && Moves(old(S()), S(), p) && NewGarbage(old(garbage), garbage, literals, vals)
      ensures work0 <= work && AllTrue(work, vals, vars) && InWork(vals0, vals, root, work)
      ensures Free(vars, vals) + |work| <= Free(vars, old(vals)) + |work0| && (old(unsat) ==> unsat)
      ensures !unsat ==> c in garbage || Held(literals[c], vals, vals0, done)
    {
      hide Moves, Connected, Free, NewGarbage, Val, AllTrue, InWork, HasTrue, Implied, F, Actual, Held;
      work := work0;
      ghost var s1 := S();
      NoNewGarbage(garbage, literals, vals);
      ValuesPositive(literals, garbage, occs, vars, next, vals);
      var status := Classify(literals[c]);
      match status {
        case Satisfied(l) =>
          MarkSatisfied(c, l, p);
          OneNewGarbage(s1.garbage, c, l, literals, vals);
        case Falsified =>
          ClauseImpliesActual(S(), c);
          LearnEmptyClause(p);
        case Unit(unit) =>
          ClauseImpliesActual(S(), c);
          UnitFacts(literals, garbage, occs, vars, next, vals, c, unit);
          MoreWork(work, vals0, vals, vars, root, unit);
          AssignUnit(unit, p);
          NoNewGarbage(garbage, literals, vals);
          work := work + [unit];
          TrueAt(work, vals, vars, |work| - 1);
          HeldUnit(literals[c], unit, vals, vals0, done);
        case Open =>
          MovesNot(S(), p);
          WorkTrue(work, vals, vars, root, vals0, done);
          HeldOpen(literals[c], vals, vals0, done);
      }
    }

    /** The clauses with `-lit`. */
    method PropagateNegative(lit: Lit, work0: seq<Lit>, ghost root: Lit, ghost vals0: map<int, bool>,
          ghost done: seq<Lit>, ghost p: Lit)
      returns (work: seq<Lit>)
      requires Valid() && Val(lit, vals) > 0 && Var(lit) in vars && done + [lit] <= work0
      requires AllHeld(literals, garbage, occs, vals, vals0, done)
      requires AllTrue(work0, vals, vars) && InWork(vals0, vals, root, work0)
      modifies this`garbage, this`vals, this`unsat
      ensures Valid() && Moves(old(S()), S(), p) && NewGarbage(old(garbage), garbage, literals, vals)
      ensures work0 <= work && AllTrue(work, vals, vars) && InWork(vals0, vals, root, work)
      ensures Free(vars, vals) + |work| <= Free(vars, old(vals)) + |work0|
      ensures !unsat ==> AllHeld(literals, garbage, occs, vals, vals0, done + [lit])
    {
      hide Moves, Connected, Free, NewGarbage, Val, AllTrue, InWork, HasTrue, Implied, F, Actual, AllHeld, ListHeld,
           Held;
      work := work0;
      ListsHave(literals, garbage, occs, vars, next, Neg(lit));
      var ns := occs[Neg(lit)];
      MovesNot(S(), p);
      NoNewGarbage(garbage, literals, vals);
      NothingHeld(literals, garbage, occs, vals, vals0, ns, done + [lit]);
      for k := 0 to |ns|
        invariant Valid() && Moves(old(S()), S(), p) && NewGarbage(old(garbage), garbage, literals, vals)
        invariant ListHeld(ns, k, literals, garbage, vals, vals0, done + [lit])
        invariant AllHeld(literals, garbage, occs, vals, vals0, done) && (unsat ==> old(unsat))
        invariant work0 <= work && AllTrue(work, vals, vars) && InWork(vals0, vals, root, work)
        invariant Free(vars, vals) + |work| <= Free(vars, old(vals)) + |work0|
      {
        var c := ns[k];
        if c in garbage {
          ListHeldNext(ns, k, literals, garbage, garbage, vals, vals, vals0, done + [lit]);
          continue;
        }
        ghost var s1 := S();
        work := VisitNegative(c, work, root, vals0, done + [lit], p);
        MovesFacts(s1, S(), p);
        MovesTrans(old(S()), s1, S(), p);
        GarbageTrans(old(garbage), s1.garbage, garbage, literals, s1.vals, vals);
        AllHeldLater(literals, s1.garbage, garbage, occs, s1.vals, vals, vals0, done);
        if unsat {
          return;
        }
        ListHeldNext(ns, k, literals, s1.garbage, garbage, s1.vals, vals, vals0, done + [lit]);
      }
      Reached(literals, garbage, occs, vars, next, Neg(lit));
      HeldNext(literals, garbage, occs, vals, vals0, done, lit);
    }

    /** The clauses with the true literal `lit` are satisfied. */
    method DropPositive(lit: Lit, ghost p: Lit)
      requires Valid() && Val(lit, vals) > 0 && Var(lit) in vars
      modifies this`garbage
      ensures Valid() && Moves(old(S()), S(), p) && NewGarbage(old(garbage), garbage, literals, vals)
      ensures Dropped(lit, occs, garbage)
    {
      hide Moves, Connected, NewGarbage, Val;
      ListsHave(literals, garbage, occs, vars, next, lit);
      var ps := occs[lit];
      MovesNot(S(), p);
      NoNewGarbage(garbage, literals, vals);
      for k := 0 to |ps|
        invariant Valid() && Moves(old(S()), S(), p) && NewGarbage(old(garbage), garbage, literals, vals)
        invariant forall j :: 0 <= j < k ==> ps[j] in garbage
      {
        var c := ps[k];
        if c in garbage {
          continue;
        }
        ghost var s1 := S();
        MarkSatisfied(c, lit, p);
        OneNewGarbage(s1.garbage, c, lit, literals, vals);
        MovesFacts(s1, S(), p);
        MovesTrans(old(S()), s1, S(), p);
        GarbageTrans(old(garbage), s1.garbage, garbage, literals, s1.vals, vals);
      }
    }

    // ------------------------------------------------------------- resolution

    /** A new irredundant clause is connected in the occurrence lists. */
    method NewClause(c: Clause, ghost p: Lit) returns (r: nat)
      requires Valid() && Implied(F(S()), Lits(c)) && p !in c && Neg(p) !in c
      requires NoDuplicates(c) && Consistent(Lits(c)) && forall l :: l in c ==> Var(l) in vars
      modifies this`literals, this`occs, this`next
      ensures Valid() && r == old(next) && r !in old(literals) && literals == old(literals)[r := c] && r !in garbage
      ensures Moves(old(S()), S(), p)
      ensures SameLists(occs, old(occs), p)
    {
      hide Moves, Connected, Implied, NoDuplicates, Consistent;
      r := next;
      FreshReference(literals, garbage, occs, vars, next, c);
      NewClauseMoves(S(), r, c, p);
      StartConnecting(literals, garbage, occs, vars, next, c);
      literals := literals[r := c];
      next := next + 1;
      for k := 0 to |c|
        invariant Connected(literals, garbage + {r}, occs, vars, next)
        invariant forall j :: 0 <= j < k ==> Listed(occs, c[j], r)
        invariant forall j :: k <= j < |c| ==> !Listed(occs, c[j], r)
        invariant r == old(next) && literals == old(literals)[r := c] && next == r + 1 && r !in garbage
        invariant garbage == old(garbage)
        invariant SameLists(occs, old(occs), p)
      {
        DistinctFrom(c, k);
        ConnectOne(literals, garbage + {r}, occs, vars, next, r, c[k]);
        occs := occs[c[k] := occs[c[k]] + [r]];
      }
      AllConnected(literals, garbage, occs, vars, next, r, c);
    }

    /** The unassigned literals of the first antecedent, without the pivot. */
    method FirstAntecedent(c: Clause, pivot: Lit) returns (satisfied: Option<Lit>, lits: seq<Lit>, s: nat)
      requires NoDuplicates(c) && pivot in c && Val(pivot, vals) == 0
      ensures satisfied.Some? ==> satisfied.value in c && Val(satisfied.value, vals) > 0
      ensures satisfied == None ==>
        && (forall l :: l in c ==> Val(l, vals) <= 0)
        && NoDuplicates(lits) && Lits(lits) == Actual(c, vals) - {pivot} && s == |lits| + 1
    {
      lits, s := [], 0;
      for k := 0 to |c|
        invariant NoDuplicates(lits) && forall l :: l in lits <==> l in c[..k] && l != pivot && Val(l, vals) == 0
        invariant forall j :: 0 <= j < k ==> Val(c[j], vals) <= 0
        invariant s == |lits| + if pivot in c[..k] then 1 else 0
      {
        PrefixStep(c, k);
        if c[k] == pivot {
          s := s + 1;
          continue;
        }
        if Val(c[k], vals) > 0 {
          return Some(c[k]), lits, s;
        } else if Val(c[k], vals) < 0 {
          continue;
        }
        lits, s := lits + [c[k]], s + 1;
      }
      satisfied := None;
      assert c[..|c|] == c;
    }

    /** The literals of the second antecedent are added to the marked ones of the
        first, until one is true or clashes. */
    method SecondAntecedent(d: Clause, negPivot: Lit, first: seq<Lit>)
      returns (satisfied: Option<Lit>, tautological: Option<Lit>, lits: seq<Lit>, t: nat)
      requires NoDuplicates(d) && negPivot in d && Val(negPivot, vals) == 0 && NoDuplicates(first)
      requires negPivot !in first && forall l :: l in first ==> Val(l, vals) == 0
      ensures satisfied.Some? ==> satisfied.value in d && Val(satisfied.value, vals) > 0
      ensures tautological.Some? ==>
        && tautological.value in d && tautological.value != negPivot && Val(tautological.value, vals) == 0
        && Neg(tautological.value) in first
      ensures satisfied == None && tautological == None ==>
        && (forall l :: l in d ==> Val(l, vals) <= 0)
        && NoDuplicates(lits) && Lits(lits) == Lits(first) + (Actual(d, vals) - {negPivot})
        && (forall l :: l in Actual(d, vals) && l != negPivot ==> Neg(l) !in first)
        && |lits| >= |first|
        && (|first| + 1 > |lits| <==> Actual(d, vals) - {negPivot} <= Lits(first))
        && (t > |lits| <==> Lits(first) <= Actual(d, vals))
    {
      hide Actual, Lits, Size, Both, Taken;
      ghost var both: set<Lit> := {};
      TakenNone(d, negPivot, vals);
      satisfied, tautological, lits, t := None, None, first, 0;
      for k := 0 to |d|
        invariant NoDuplicates(lits) && |lits| >= |first| && both <= Both(d, vals, first)
        invariant forall l :: l in lits <==> l in first || Taken(d, k, negPivot, vals, l)
        invariant forall j :: 0 <= j < k ==> Val(d[j], vals) <= 0
        invariant forall l :: Taken(d, k, negPivot, vals, l) ==> Neg(l) !in first
        invariant forall l :: l in both ==> l in d[..k]
        invariant forall j :: 0 <= j < k && d[j] in first && Val(d[j], vals) == 0 ==> d[j] in both
        invariant t == |lits| - |first| + Size(both) + if negPivot in d[..k] then 1 else 0
        invariant |lits| == |first| <==> forall l :: Taken(d, k, negPivot, vals, l) ==> l in first
      {
        var lit := d[k];
        PrefixStep(d, k);
        TakenStep(d, k, negPivot, vals);
        if lit == negPivot {
          t := t + 1;
          continue;
        }
        if Val(lit, vals) > 0 {
          satisfied := Some(lit);
          return;
        } else if Val(lit, vals) < 0 {
          continue;
        } else if Neg(lit) in first {
          tautological := Some(lit);
          return;
        } else if lit !in first {
          lits, t := lits + [lit], t + 1;
        } else {
          BothHas(d, vals, first, lit);
          SizeAdd(both, lit);
          both := both + {lit};
          t := t + 1;
        }
      }
      TakenAll(d, negPivot, vals);
      BothAll(d, vals, first, both);
      SecondDone(d, vals, negPivot, first, lits, both);
    }

    /** `elim_on_the_fly_self_subsumption`: the pivot is removed from a clause. */
    method Strengthen(c: nat, pivot: Lit, ghost p: Lit)
      requires Valid() && c in literals && c !in garbage && pivot in literals[c] && (p == pivot || p == Neg(pivot))
      requires Val(pivot, vals) == 0
      requires Implied(F(S()), Actual(literals[c], vals) - {pivot})
      requires forall l :: l in literals[c] ==> Val(l, vals) <= 0
      modifies this`literals, this`garbage, this`occs, this`next
      ensures Valid() && Moves(old(S()), S(), p)
      ensures Replaces(old(S()), S(), {c}, Actual(old(literals)[c], vals) - {pivot})
      ensures Implied(Without(F(S()), p), Actual(literals[c], vals) - {pivot})
      ensures SameLists(occs, old(occs), p)
    {
      hide Moves, Connected, Implied, Actual, F, Lits;
      ClauseFacts(literals, garbage, occs, vars, next, c);
      var satisfied, lits, s := FirstAntecedent(literals[c], pivot);
      assert satisfied == None;
      RestFacts(literals[c], vals, pivot, lits);
      var r := NewClause(lits, p);
      ghost var s1 := S();
      PivotOnce(literals[c], pivot);
      ReplacedMoves(s1, r, c, lits, pivot, p);
      MoreGarbage(literals, garbage, occs, vars, next, c);
      garbage := garbage + {c};
      MovesTrans(old(S()), s1, S(), p);
      assert NewClauseIs(old(S()), S(), r, Lits(lits));
    }

    /** A clause subsumed by what is implied without the pivot is dropped. */
    method DropSubsumed(d: nat, pivot: Lit, ghost lits: seq<Lit>, ghost p: Lit)
      requires Valid() && d in literals && (p == pivot || p == Neg(pivot)) && pivot in literals[d] && Val(p, vals) == 0
      requires Implied(Without(F(S()), p), Lits(lits)) && Lits(lits) == Actual(literals[d], vals) - {pivot}
      modifies this`garbage
      ensures Valid() && Moves(old(S()), S(), p) && garbage == old(garbage) + {d}
      ensures Implied(Without(F(S()), p), Lits(lits))
    {
      hide Moves, Connected, F, Implied;
      ClauseFacts(literals, garbage, occs, vars, next, d);
      SubsumedMoves(S(), d, Lits(lits), pivot, p);
      MoreGarbage(literals, garbage, occs, vars, next, d);
      garbage := garbage + {d};
      LaterImplied(old(S()), S(), p, Lits(lits));
    }

    /** `resolve_clauses`: true if the resolvent, left in `clause`, has to be added.
        Otherwise it is satisfied already, tautological, empty or a unit, or one of
        the clauses has been strengthened; then the remaining clauses imply it. */
    method Resolve(c: nat, pivot: Lit, d: nat, propagateEagerly: bool) returns (needed: bool)
      requires Valid() && c in literals && d in literals && pivot in literals[c] && Neg(pivot) in literals[d]
      requires Val(pivot, vals) == 0 && clause == []
      modifies this`literals, this`garbage, this`occs, this`vals, this`unsat, this`next, this`clause
      ensures Valid() && Moves(old(S()), S(), pivot) && SameLists(occs, old(occs), pivot)
      ensures !propagateEagerly ==> Val(pivot, vals) == 0
      ensures needed ==> S() == old(S()) && Resolvent(clause, F(S()), literals[c], literals[d], pivot, vals, vars)
      ensures !needed ==> clause == []
      ensures if c in old(garbage) || d in old(garbage) then !needed && S() == old(S())
        else if |old(literals)[c]| > |old(literals)[d]| then
          Outcome(old(S()), S(), d, c, Neg(pivot), propagateEagerly, needed)
        else Outcome(old(S()), S(), c, d, pivot, propagateEagerly, needed)
      ensures forall u: Lit :: propagateEagerly && UnitResolvent(old(S()), c, d, pivot, u) && !unsat ==>
        Dropped(u, occs, garbage) && QuietOn(u, literals, garbage, occs, vals)
      ensures !needed && c !in old(garbage) && d !in old(garbage) && Val(pivot, vals) == 0 ==>
        ResolventHolds(Without(F(S()), pivot), old(literals)[c], old(literals)[d], pivot)
      ensures forall u: Lit :: !propagateEagerly && UnitResolvent(old(S()), c, d, pivot, u) ==>
        S() == old(S()).(vals := SetFalse(Neg(u), old(vals)))
    {
      hide Moves, Connected, Implied, F, ResolventHolds, Resolvent, SameLists, UnitResolvent, Outcome, Dropped, QuietOn;
      needed := false;
      UnitEither(S(), c, d, pivot);
      if c in garbage || d in garbage {
        MovesNot(S(), pivot);
        ListsUnchanged(occs, pivot);
        return;
      }
      assert Neg(Neg(pivot)) == pivot;
      if |literals[c]| > |literals[d]| {
        needed := ResolveOrdered(d, Neg(pivot), c, propagateEagerly, pivot);
      } else {
        needed := ResolveOrdered(c, pivot, d, propagateEagerly, pivot);
      }
    }

    /** Resolution with the smaller clause first. */
    method ResolveOrdered(c: nat, pivot: Lit, d: nat, propagateEagerly: bool, ghost p: Lit) returns (needed: bool)
      requires Valid() && c in literals && d in literals && pivot in literals[c] && Neg(pivot) in literals[d]
      requires c !in garbage && d !in garbage && (p == pivot || p == Neg(pivot))
      requires Val(pivot, vals) == 0 && clause == []
      modifies this`literals, this`garbage, this`occs, this`vals, this`unsat, this`next, this`clause
      ensures Valid() && Moves(old(S()), S(), p) && SameLists(occs, old(occs), p)
      ensures !propagateEagerly ==> Val(p, vals) == 0
      ensures needed ==> S() == old(S()) && Resolvent(clause, F(S()), literals[c], literals[d], pivot, vals, vars)
      ensures needed ==> Resolvent(clause, F(S()), literals[d], literals[c], Neg(pivot), vals, vars)
      ensures !needed ==> clause == []
      ensures Outcome(old(S()), S(), c, d, pivot, propagateEagerly, needed)
      ensures forall u: Lit :: propagateEagerly && UnitResolvent(old(S()), c, d, p, u) && !unsat ==>
        Dropped(u, occs, garbage) && QuietOn(u, literals, garbage, occs, vals)
      ensures forall u: Lit :: !propagateEagerly && UnitResolvent(old(S()), c, d, p, u) ==>
        S() == old(S()).(vals := SetFalse(Neg(u), old(vals)))
      ensures !needed && Val(p, vals) == 0 ==>
        && ResolventHolds(Without(F(S()), p), old(literals)[c], old(literals)[d], pivot)
        && ResolventHolds(Without(F(S()), p), old(literals)[d], old(literals)[c], Neg(pivot))
    {
      hide Moves, Connected, Implied, Actual, F, Lits, ResolventHolds, Resolvent, SameLists, FromBoth, Consistent,
           UnitResolvent, Outcome, HasTrue, Clash, Concluded, Dropped, QuietOn;
      MovesNot(S(), p);
      ListsUnchanged(occs, p);
      ClauseFacts(literals, garbage, occs, vars, next, c);
      ClauseFacts(literals, garbage, occs, vars, next, d);
      ValuesPositive(literals, garbage, occs, vars, next, vals);
      needed := false;
      ghost var f, g, s0 := literals[c], literals[d], S();
      PivotOnce(literals[c], pivot);
      PivotOnce(literals[d], Neg(pivot));
      var satisfied, first, s := FirstAntecedent(literals[c], pivot);
      if satisfied.Some? {
        MarkSatisfied(c, satisfied.value, p);
        SatisfiedResolvent(S(), f, g, pivot, p, satisfied.value);
        FirstOutcome(s0, c, d, pivot, satisfied.value, propagateEagerly);
        NoUnitSatisfied(s0, c, d, p, satisfied.value);
        return;
      }
      FirstUnassigned(literals[c], vals, pivot, first);
      var satisfied2, tautological, lits, t := SecondAntecedent(literals[d], Neg(pivot), first);
      if satisfied2.Some? {
        assert Neg(Neg(pivot)) == pivot;
        MarkSatisfied(d, satisfied2.value, p);
        SatisfiedResolvent(S(), g, f, Neg(pivot), p, satisfied2.value);
        SecondOutcome(s0, c, d, pivot, satisfied2.value, propagateEagerly);
        NoUnitSatisfied(s0, c, d, p, satisfied2.value);
        return;
      }
      if tautological.Some? {
        TautologicalResolvent(Without(F(S()), p), f, g, pivot, vals, first, tautological.value);
        assert Neg(Neg(pivot)) == pivot;
        NoUnitTautology(s0, c, d, p, pivot, first, tautological.value);
        ClashOutcome(s0, c, d, pivot, first, tautological.value, propagateEagerly);
        return;
      }
      assert Neg(Neg(pivot)) == pivot;
      forall u: Lit | UnitResolvent(s0, c, d, p, u)
        ensures lits == [u]
      {
        UnitLists(s0, c, d, p, pivot, u, first, lits);
      }
      BothFacts(literals, garbage, occs, vars, next, S(), c, d, pivot, first, lits, s, t);
      NoClash(s0, c, d, pivot, first);
      needed := Conclude(c, pivot, d, p, first, lits, s, t, propagateEagerly);
      ConcludedOutcome(s0, S(), c, d, pivot, first, lits, s, t, propagateEagerly, needed);
      if needed {
        clause := lits;
        ResolventFacts(lits, F(S()), f, g, pivot, vals, vars, first, s, t);
      } else if Val(p, vals) == 0 {
        ResolventWeaker(Without(F(S()), p), lits, f, g, pivot, old(vals), first, s, t);
      }
    }

    /** A resolvent of one literal: the literal is assigned, and propagated if asked for. */
    method ConcludeUnit(unit: Lit, ghost p: Lit, propagateEagerly: bool)
      requires Valid() && Implied(F(S()), Lits([unit])) && Val(unit, vals) == 0 && Var(unit) in vars
      modifies this`garbage, this`vals, this`unsat
      ensures Valid() && Moves(old(S()), S(), p) && Val(unit, vals) > 0
      ensures !propagateEagerly ==> S() == old(S()).(vals := SetFalse(Neg(unit), old(vals)))
      ensures propagateEagerly && !unsat ==>
        Dropped(unit, occs, garbage) && QuietOn(unit, literals, garbage, occs, vals)
      ensures Val(p, vals) == 0 ==> Implied(Without(F(S()), p), Lits([unit]))
    {
      hide Moves, Connected, Implied, Actual, F, Lits, Free, NewGarbage, Dropped, QuietOn, HasTrue;
      OneLit(unit);
      AssignUnit(unit, p);
      ValuesPositive(literals, garbage, occs, vars, next, vals);
      UnitImplies(S(), p, [unit]);
      if propagateEagerly {
        ghost var s1 := S();
        Propagate(unit, p);
        MovesTrans(old(S()), s1, S(), p);
        MovesFacts(s1, S(), p);
        LaterImplied(s1, S(), p, Lits([unit]));
      }
    }

    /** What becomes of a resolvent without true or clashing literals. */
    method Conclude(c: nat, pivot: Lit, d: nat, ghost p: Lit, ghost first: seq<Lit>, lits: seq<Lit>, s: nat, t: nat,
          propagateEagerly: bool)
      returns (needed: bool)
      requires Valid() && c in literals && d in literals && c !in garbage && d !in garbage && c != d
      requires pivot in literals[c] && Neg(pivot) in literals[d] && Val(pivot, vals) == 0
      requires (p == pivot || p == Neg(pivot))
      requires FromBoth(literals[c], literals[d], pivot, vals, first, lits, s, t)
      requires Implied(F(S()), Lits(lits)) && forall l :: l in lits ==> Var(l) in vars
      modifies this`literals, this`garbage, this`occs, this`vals, this`unsat, this`next
      ensures Valid() && Moves(old(S()), S(), p)
      ensures SameLists(occs, old(occs), p)
      ensures !propagateEagerly ==> Val(p, vals) == 0
      ensures needed ==> S() == old(S()) && |lits| >= 2
      ensures |lits| == 1 && !propagateEagerly ==> S() == old(S()).(vals := SetFalse(Neg(lits[0]), old(vals)))
      ensures Concluded(old(S()), S(), c, d, lits, s > |lits|, t > |lits|, needed)
      ensures |lits| == 1 && propagateEagerly && !unsat ==>
        Dropped(lits[0], occs, garbage) && QuietOn(lits[0], literals, garbage, occs, vals)
      ensures !needed && Val(p, vals) == 0 ==> Implied(Without(F(S()), p), Lits(lits))
    {
      hide Moves, Connected, Implied, Actual, F, Lits, FromBoth, SameLists, Consistent, NoDuplicates, Free, NewGarbage,
           Dropped, QuietOn, Replaces, HasTrue;
      ListsUnchanged(occs, p);
      needed := false;
      var size := |lits|;
      ghost var none: set<nat> := {};
      assert {c} + none == {c} && none + {d} == {d};
      FromBothFacts(literals[c], literals[d], pivot, vals, first, lits, s, t);
      if size == 0 {
        LearnEmptyClause(p);
        EmptyImplies(S(), p, lits);
      } else if size == 1 {
        assert lits == [lits[0]] && lits[0] in lits;
        ConcludeUnit(lits[0], p, propagateEagerly);
      } else if s > size && t > size {
        Strengthen(c, pivot, p);
        MovesFacts(old(S()), S(), p);
        ghost var s1 := S();
        DropSubsumed(d, Neg(pivot), lits, p);
        MovesTrans(old(S()), s1, S(), p);
        ReplacesBoth(old(S()), s1, S(), c, d, Lits(lits));
      } else if s > size {
        Strengthen(c, pivot, p);
        MovesFacts(old(S()), S(), p);
      } else if t > size {
        Strengthen(d, Neg(pivot), p);
        MovesFacts(old(S()), S(), p);
      } else {
        MovesNot(S(), p);
        needed := true;
      }
    }
  }

  /** The occurrence lists of the pivot are as before. */
  ghost predicate SameLists(occs: map<Lit, seq<nat>>, occs0: map<Lit, seq<nat>>, p: Lit) {
    && occs.Keys == occs0.Keys
    && (p in occs ==> occs[p] == occs0[p]) && (Neg(p) in occs ==> occs[Neg(p)] == occs0[Neg(p)])
  }

  lemma ListsUnchanged(occs: map<Lit, seq<nat>>, p: Lit)
    ensures SameLists(occs, occs, p)
  {
  }

  lemma PivotOnce(c: Clause, pivot: Lit)
    requires pivot in c && Consistent(Lits(c))
    ensures Neg(pivot) !in c
  {
    assert pivot in Lits(c);
  }

  /** The part of the outcome that depends on the literals of the resolvent. */
  ghost predicate Concluded(s0: State, s: State, c: nat, d: nat, lits: seq<Lit>, first: bool, second: bool,
        needed: bool) {
    if |lits| == 0 then !needed && s == s0.(unsat := true)
    else if |lits| == 1 then !needed && Val(lits[0], s.vals) > 0
    else if first || second then
      !needed && Replaces(s0, s, (if first then {c} else {}) + (if second then {d} else {}), Lits(lits))
    else needed && s == s0
  }

  lemma OneLit(l: Lit)
    ensures Lits([l]) == {l}
  {
    assert l in [l];
  }

  lemma ReplacesBoth(s0: State, s1: State, s: State, c: nat, d: nat, ls: set<Lit>)
    requires Replaces(s0, s1, {c}, ls) && s == s1.(garbage := s1.garbage + {d}) && d in s0.literals
    ensures Replaces(s0, s, {c} + {d}, ls)
  {
    var r :| NewClauseIs(s0, s1, r, ls);
    assert NewClauseIs(s0, s, r, ls);
    assert s0.garbage + {c} + {d} == s0.garbage + ({c} + {d});
  }

  lemma FirstUnassigned(c: Clause, vals: map<int, bool>, pivot: Lit, first: seq<Lit>)
    requires Lits(first) == Actual(c, vals) - {pivot}
    ensures forall l :: l in first ==> l in c && Val(l, vals) == 0
  {
    forall l | l in first
      ensures l in c && Val(l, vals) == 0
    {
      assert l in Lits(first);
    }
  }

  lemma FirstOutcome(s0: State, c: nat, d: nat, pivot: Lit, l: Lit, eagerly: bool)
    requires c in s0.literals && d in s0.literals && l in s0.literals[c] && Val(l, s0.vals) > 0
    ensures Outcome(s0, s0.(garbage := s0.garbage + {c}), c, d, pivot, eagerly, false)
  {
    assert HasTrue(s0.literals[c], s0.vals);
  }

  lemma SecondOutcome(s0: State, c: nat, d: nat, pivot: Lit, l: Lit, eagerly: bool)
    requires c in s0.literals && d in s0.literals && l in s0.literals[d] && Val(l, s0.vals) > 0
    requires forall k :: k in s0.literals[c] ==> Val(k, s0.vals) <= 0
    ensures Outcome(s0, s0.(garbage := s0.garbage + {d}), c, d, pivot, eagerly, false)
  {
    hide Clash;
    assert HasTrue(s0.literals[d], s0.vals);
  }

  lemma ClashOutcome(s0: State, c: nat, d: nat, pivot: Lit, first: seq<Lit>, l: Lit, eagerly: bool)
    requires c in s0.literals && d in s0.literals && Lits(first) == Actual(s0.literals[c], s0.vals) - {pivot}
    requires forall k :: k in s0.literals[c] ==> Val(k, s0.vals) <= 0
    requires l in s0.literals[d] && l != Neg(pivot) && Val(l, s0.vals) == 0 && Neg(l) in first
    ensures Outcome(s0, s0, c, d, pivot, eagerly, false)
  {
    assert Neg(l) in Lits(first);
    assert Clash(s0.literals[c], s0.literals[d], pivot, s0.vals);
  }

  lemma NoClash(s0: State, c: nat, d: nat, pivot: Lit, first: seq<Lit>)
    requires c in s0.literals && d in s0.literals && Lits(first) == Actual(s0.literals[c], s0.vals) - {pivot}
    requires forall k :: k in s0.literals[c] || k in s0.literals[d] ==> Val(k, s0.vals) <= 0
    requires forall l :: l in Actual(s0.literals[d], s0.vals) && l != Neg(pivot) ==> Neg(l) !in first
    ensures !HasTrue(s0.literals[c], s0.vals) && !HasTrue(s0.literals[d], s0.vals)
    ensures !Clash(s0.literals[c], s0.literals[d], pivot, s0.vals)
  {
    forall l | l in Actual(s0.literals[d], s0.vals) && l != Neg(pivot)
      ensures Neg(l) !in Actual(s0.literals[c], s0.vals)
    {
      assert Neg(l) !in first && Neg(Neg(l)) == l;
      assert Neg(l) == pivot ==> l == Neg(pivot);
      assert Neg(l) in Lits(first) ==> Neg(l) in first;
    }
  }

  lemma ConcludedOutcome(s0: State, s: State, c: nat, d: nat, pivot: Lit, first: seq<Lit>, lits: seq<Lit>, n: nat,
        m: nat, eagerly: bool, needed: bool)
    requires c in s0.literals && d in s0.literals && Val(pivot, s0.vals) == 0
    requires FromBoth(s0.literals[c], s0.literals[d], pivot, s0.vals, first, lits, n, m)
    requires !HasTrue(s0.literals[c], s0.vals) && !HasTrue(s0.literals[d], s0.vals)
    requires !Clash(s0.literals[c], s0.literals[d], pivot, s0.vals)
    requires pivot in s0.literals[c] && Neg(pivot) in s0.literals[d]
    requires Concluded(s0, s, c, d, lits, n > |lits|, m > |lits|, needed)
    requires |lits| == 1 && !eagerly ==> s == s0.(vals := SetFalse(Neg(lits[0]), s0.vals))
    ensures Outcome(s0, s, c, d, pivot, eagerly, needed)
  {
    hide HasTrue, Clash, Replaces, Val, FromBoth, Actual, Lits, NoDuplicates;
    ResolventIs(s0.literals[c], s0.literals[d], pivot, s0.vals, first, lits, n, m);
    if |lits| == 1 {
      assert Lits(lits) == {lits[0]};
    }
  }

  /** The list collected is the resolvent. */
  lemma ResolventIs(c: Clause, d: Clause, pivot: Lit, vals: map<int, bool>, first: seq<Lit>, lits: seq<Lit>, n: nat,
        m: nat)
    requires FromBoth(c, d, pivot, vals, first, lits, n, m) && Val(pivot, vals) == 0
    requires pivot in c && Neg(pivot) in d
    ensures Lits(lits) == (Actual(c, vals) + Actual(d, vals)) - {pivot, Neg(pivot)}
    ensures n > |lits| <==> Actual(d, vals) - {Neg(pivot)} <= Actual(c, vals)
    ensures m > |lits| <==> Actual(c, vals) - {pivot} <= Actual(d, vals)
    ensures |lits| == 0 <==> Lits(lits) == {}
    ensures forall u: Lit :: Lits(lits) == {u} <==> |lits| == 1 && lits[0] == u
  {
    hide Val;
    var (a, b) := (Actual(c, vals), Actual(d, vals));
    assert pivot !in b && Neg(pivot) !in a;
    assert Lits(first) == a - {pivot};
    forall l | l in Lits(lits)
      ensures l != pivot && l != Neg(pivot)
    {
    }
    assert Lits(lits) == (a + b) - {pivot, Neg(pivot)};
    ListedSet(lits);
  }

  lemma ListedSet(lits: seq<Lit>)
    requires NoDuplicates(lits)
    ensures |lits| == 0 <==> Lits(lits) == {}
    ensures forall u: Lit :: Lits(lits) == {u} <==> |lits| == 1 && lits[0] == u
  {
    SizeOf(lits);
    if |lits| == 1 {
      assert lits[0] in lits;
    }
    forall u: Lit | Lits(lits) == {u}
      ensures |lits| == 1 && lits[0] == u
    {
      assert lits[0] in Lits(lits);
    }
  }

  lemma ClauseFacts(literals: map<nat, Clause>, garbage: set<nat>, occs: map<Lit, seq<nat>>, vars: set<int>, next: nat,
        c: nat)
    requires Connected(literals, garbage, occs, vars, next) && c in literals
    ensures NoDuplicates(literals[c]) && Consistent(Lits(literals[c]))
    ensures forall l :: l in literals[c] ==> Var(l) in vars && l in occs
  {
    assert ClauseVars(literals[c]) <= vars;
    forall l | l in literals[c]
      ensures Var(l) in vars
    {
      assert Var(l) in ClauseVars(literals[c]);
    }
  }

  lemma RestFacts(c: Clause, vals: map<int, bool>, pivot: Lit, lits: seq<Lit>)
    requires Consistent(Lits(c)) && Lits(lits) == Actual(c, vals) - {pivot} && pivot in c
    ensures Consistent(Lits(lits)) && pivot !in lits && Neg(pivot) !in lits && forall l :: l in lits ==> l in c
  {
    forall l | l in lits
      ensures l in c && l != pivot && l != Neg(pivot)
    {
      assert l in Lits(lits) && l in Lits(c) && pivot in Lits(c);
      assert Neg(pivot) !in Lits(c);
    }
  }

  lemma LaterImplied(s: State, t: State, p: Lit, c: set<Lit>)
    requires Moves(s, t, p) && (Val(p, s.vals) == 0 ==> Implied(Without(F(s), p), c))
    ensures Val(p, t.vals) == 0 ==> Implied(Without(F(t), p), c)
  {
    if Val(p, t.vals) == 0 {
      ImpliedLater(F(s), F(t), p, c);
    }
  }

  lemma SubsumedMoves(s: State, d: nat, c: set<Lit>, pivot: Lit, p: Lit)
    requires d in s.literals && (p == pivot || p == Neg(pivot)) && Implied(Without(F(s), p), c)
    requires pivot in s.literals[d] && Neg(pivot) !in s.literals[d] && c <= Lits(s.literals[d]) - {pivot}
    ensures Moves(s, s.(garbage := s.garbage + {d}), p)
  {
    var t := s.(garbage := s.garbage + {d});
    var e := Lits(s.literals[d]);
    GarbageFormula(s.literals, s.garbage, s.vals, s.unsat, d);
    assert Without(F(s), p) == Without(F(t), p) by {
      forall x
        ensures x in Without(F(s), p) <==> x in Without(F(t), p)
      {
        assert pivot in e;
      }
    }
    forall m: Model | Models(m, Without(F(t), p))
      ensures SatLits(e - {p, Neg(p)}, m)
    {
      var l :| l in c && True(l, m);
      assert l in e - {p, Neg(p)};
    }
    RemoveImplied(F(s), F(t), p, e);
  }

  lemma ReplacedMoves(s: State, r: nat, c: nat, lits: seq<Lit>, q: Lit, p: Lit)
    requires r in s.literals && r !in s.garbage && s.literals[r] == lits && c in s.literals
    requires p !in lits && Neg(p) !in lits && (forall l :: l in lits ==> l in s.literals[c])
    requires (q == p || q == Neg(p)) && q in s.literals[c] && Neg(q) !in s.literals[c]
    ensures Moves(s, s.(garbage := s.garbage + {c}), p)
    ensures Implied(Without(F(s.(garbage := s.garbage + {c})), p), Lits(lits))
  {
    var t := s.(garbage := s.garbage + {c});
    assert r in t.literals && r !in t.garbage && Lits(lits) in F(t) && Lits(lits) in Without(F(t), p);
    assert Lits(lits) in Without(F(s), p);
    SubsumedMoves(s, c, Lits(lits), q, p);
  }

  /** The literals collected from both antecedents. */
  ghost predicate FromBoth(c: Clause, d: Clause, pivot: Lit, vals: map<int, bool>, first: seq<Lit>, lits: seq<Lit>,
        s: nat, t: nat) {
    && (forall l :: l in c ==> Val(l, vals) <= 0) && (forall l :: l in d ==> Val(l, vals) <= 0)
    && Neg(pivot) !in c && pivot !in d
    && Lits(first) == Actual(c, vals) - {pivot} && Lits(lits) == Lits(first) + (Actual(d, vals) - {Neg(pivot)})
    && (forall l :: l in lits ==> Neg(l) !in lits) && NoDuplicates(lits)
    && s == |first| + 1 && |lits| >= |first|
    && (s > |lits| <==> Actual(d, vals) - {Neg(pivot)} <= Lits(first))
    && (t > |lits| <==> Lits(first) <= Actual(d, vals))
  }

  lemma FromBothFacts(c: Clause, d: Clause, pivot: Lit, vals: map<int, bool>, first: seq<Lit>, lits: seq<Lit>, s: nat,
        t: nat)
    requires FromBoth(c, d, pivot, vals, first, lits, s, t) && Val(pivot, vals) == 0
    ensures (forall l :: l in c ==> Val(l, vals) <= 0) && (forall l :: l in d ==> Val(l, vals) <= 0)
    ensures pivot !in lits && Neg(pivot) !in lits
    ensures s > |lits| ==> Lits(lits) == Actual(c, vals) - {pivot}
    ensures t > |lits| ==> Lits(lits) == Actual(d, vals) - {Neg(pivot)}
    ensures |lits| == 0 ==> Lits(lits) == {}
    ensures |lits| == 1 ==> Lits(lits) == {lits[0]} && Val(lits[0], vals) == 0
  {
    forall l | l in lits
      ensures l != pivot && l != Neg(pivot) && Val(l, vals) == 0
    {
      assert l in Lits(lits);
      assert l in Actual(c, vals) || l in Actual(d, vals);
    }
    if t > |lits| {
      forall l | l in Lits(first)
        ensures l in Actual(d, vals) - {Neg(pivot)}
      {
        assert l in Actual(c, vals);
      }
    }
    if |lits| == 1 {
      assert lits[0] in lits;
    }
  }

  lemma BothFacts(literals: map<nat, Clause>, garbage: set<nat>, occs: map<Lit, seq<nat>>, vars: set<int>, next: nat,
        st: State,
      c: nat, d: nat, pivot: Lit, first: seq<Lit>, lits: seq<Lit>, s: nat, t: nat)
    requires Connected(literals, garbage, occs, vars, next) && st.literals == literals && st.garbage == garbage
    requires st.vals.Keys <= vars
    requires c in literals && d in literals && c !in garbage && d !in garbage
    requires pivot in literals[c] && Neg(pivot) in literals[d]
    requires (forall l :: l in literals[c] ==> Val(l, st.vals) <= 0)
    requires (forall l :: l in literals[d] ==> Val(l, st.vals) <= 0)
    requires Lits(first) == Actual(literals[c], st.vals) - {pivot} && s == |first| + 1 && NoDuplicates(lits)
    requires Lits(lits) == Lits(first) + (Actual(literals[d], st.vals) - {Neg(pivot)}) && |lits| >= |first|
    requires forall l :: l in Actual(literals[d], st.vals) && l != Neg(pivot) ==> Neg(l) !in first
    requires s > |lits| <==> Actual(literals[d], st.vals) - {Neg(pivot)} <= Lits(first)
    requires t > |lits| <==> Lits(first) <= Actual(literals[d], st.vals)
    ensures FromBoth(literals[c], literals[d], pivot, st.vals, first, lits, s, t) && c != d
    ensures Implied(F(st), Lits(lits)) && forall l :: l in lits ==> Var(l) in vars
  {
    ClauseFacts(literals, garbage, occs, vars, next, c);
    ClauseFacts(literals, garbage, occs, vars, next, d);
    ValuesPositive(literals, garbage, occs, vars, next, st.vals);
    ClauseImpliesActual(st, c);
    ClauseImpliesActual(st, d);
    assert pivot in Lits(literals[c]) && Neg(pivot) in Lits(literals[d]);
    forall l | l in lits
      ensures Neg(l) !in lits && Var(l) in vars
    {
      assert l in Lits(lits);
      assert Neg(l) in lits ==> Neg(l) in Lits(lits);
      assert Neg(Neg(l)) == l;
      assert l in Lits(literals[c]) ==> Neg(l) !in Lits(literals[c]);
      assert l in Lits(literals[d]) ==> Neg(l) !in Lits(literals[d]);
    }
    forall m: Model | Models(m, F(st))
      ensures SatLits(Lits(lits), m)
    {
      var x :| x in Actual(literals[c], st.vals) && True(x, m);
      var y :| y in Actual(literals[d], st.vals) && True(y, m);
      assert x in Lits(lits) || y in Lits(lits);
    }
  }

  lemma SatisfiedResolvent(s: State, c: Clause, d: Clause, pivot: Lit, p: Lit, l: Lit)
    requires l in c && Val(l, s.vals) > 0 && Val(p, s.vals) == 0 && (p == pivot || p == Neg(pivot))
    requires forall v :: v in s.vals ==> v > 0
    ensures ResolventHolds(Without(F(s), p), c, d, pivot) && ResolventHolds(Without(F(s), p), d, c, Neg(pivot))
  {
    WithoutUnits(s.literals, s.garbage, s.vals, s.unsat, p);
    var r := Rest(Lits(c), pivot) + Rest(Lits(d), Neg(pivot));
    assert r == Rest(Lits(d), Neg(pivot)) + Rest(Lits(c), Neg(Neg(pivot)));
    forall m: Model | Models(m, Without(F(s), p))
      ensures SatLits(r, m)
    {
      AgreesUnits(m, s.vals);
      AgreesTrue(m, s.vals, l);
      assert l in r;
    }
  }

  lemma TautologicalResolvent(f: Formula, c: Clause, d: Clause, pivot: Lit, vals: map<int, bool>, first: seq<Lit>,
        l: Lit)
    requires l in d && l != Neg(pivot) && Neg(l) in first && Lits(first) == Actual(c, vals) - {pivot}
    ensures ResolventHolds(f, c, d, pivot) && ResolventHolds(f, d, c, Neg(pivot))
  {
    var r := Rest(Lits(c), pivot) + Rest(Lits(d), Neg(pivot));
    assert r == Rest(Lits(d), Neg(pivot)) + Rest(Lits(c), Neg(Neg(pivot)));
    assert Neg(l) in Lits(first);
    assert l in r && Neg(l) in r;
    forall m: Model | Models(m, f)
      ensures SatLits(r, m)
    {
      assert True(l, m) || True(Neg(l), m);
    }
  }

  /** The resolvent to be added, without the assigned literals. */
  ghost predicate Resolvent(clause: seq<Lit>, f: Formula, c: Clause, d: Clause, pivot: Lit, vals: map<int, bool>,
        vars: set<int>) {
    && |clause| >= 2 && NoDuplicates(clause) && Consistent(Lits(clause)) && (forall l :: l in clause ==> Var(l) in vars)
    && pivot !in clause && Neg(pivot) !in clause
    && Lits(clause) == (Actual(c, vals) + Actual(d, vals)) - {pivot, Neg(pivot)}
    && (forall l :: l in c || l in d ==> Val(l, vals) <= 0)
    && Implied(f, Lits(clause))
  }

  lemma ResolventFacts(lits: seq<Lit>, f: Formula, c: Clause, d: Clause, pivot: Lit, vals: map<int, bool>,
        vars: set<int>, first: seq<Lit>, s: nat, t: nat)
    requires FromBoth(c, d, pivot, vals, first, lits, s, t) && Val(pivot, vals) == 0 && |lits| >= 2
    requires Implied(f, Lits(lits)) && forall l :: l in lits ==> Var(l) in vars
    ensures Resolvent(lits, f, c, d, pivot, vals, vars) && Resolvent(lits, f, d, c, Neg(pivot), vals, vars)
  {
    FromBothFacts(c, d, pivot, vals, first, lits, s, t);
    assert Neg(Neg(pivot)) == pivot;
  }

  lemma ResolventWeaker(f: Formula, lits: seq<Lit>, c: Clause, d: Clause, pivot: Lit, vals: map<int, bool>,
        first: seq<Lit>, s: nat, t: nat)
    requires FromBoth(c, d, pivot, vals, first, lits, s, t) && Implied(f, Lits(lits))
    ensures ResolventHolds(f, c, d, pivot) && ResolventHolds(f, d, c, Neg(pivot))
  {
    var r := Rest(Lits(c), pivot) + Rest(Lits(d), Neg(pivot));
    assert r == Rest(Lits(d), Neg(pivot)) + Rest(Lits(c), Neg(Neg(pivot)));
    assert Lits(lits) <= r;
    forall m: Model | Models(m, f)
      ensures SatLits(r, m)
    {
      var l :| l in Lits(lits) && True(l, m);
      assert l in r;
    }
  }

  lemma EmptyImplies(s: State, p: Lit, lits: seq<Lit>)
    requires s.unsat
    ensures Implied(Without(F(s), p), Lits(lits))
  {
    assert {} in Without(F(s), p);
    forall m: Model
      ensures !Models(m, Without(F(s), p))
    {
      assert Models(m, Without(F(s), p)) ==> SatLits({}, m);
    }
  }

  lemma UnitImplies(s: State, p: Lit, lits: seq<Lit>)
    requires lits != [] && Val(lits[0], s.vals) > 0 && forall v :: v in s.vals ==> v > 0
    ensures Val(p, s.vals) == 0 ==> Implied(Without(F(s), p), Lits(lits))
  {
    if Val(p, s.vals) == 0 {
      WithoutUnits(s.literals, s.garbage, s.vals, s.unsat, p);
      forall m: Model | Models(m, Without(F(s), p))
        ensures SatLits(Lits(lits), m)
      {
        AgreesUnits(m, s.vals);
        AgreesTrue(m, s.vals, lits[0]);
        assert lits[0] in Lits(lits);
      }
    }
  }

  ghost predicate Listed(occs: map<Lit, seq<nat>>, l: Lit, r: nat) {
    l in occs && r in occs[l]
  }

  lemma FreshReference(literals: map<nat, Clause>, garbage: set<nat>, occs: map<Lit, seq<nat>>, vars: set<int>,
        next: nat, c: Clause)
    requires Connected(literals, garbage, occs, vars, next)
    ensures next !in literals && next !in garbage
  {
  }

  lemma StartConnecting(literals: map<nat, Clause>, garbage: set<nat>, occs: map<Lit, seq<nat>>, vars: set<int>,
        next: nat, c: Clause)
    requires Connected(literals, garbage, occs, vars, next)
    requires NoDuplicates(c) && Consistent(Lits(c)) && forall l :: l in c ==> Var(l) in vars
    ensures Connected(literals[next := c], garbage + {next}, occs, vars, next + 1)
    ensures forall l :: !Listed(occs, l, next)
  {
  }

  lemma DistinctFrom(c: Clause, k: nat)
    requires NoDuplicates(c) && k < |c|
    ensures forall j :: k < j < |c| ==> c[j] != c[k]
  {
  }

  lemma ConnectOne(literals: map<nat, Clause>, garbage: set<nat>, occs: map<Lit, seq<nat>>, vars: set<int>, next: nat,
        r: nat, l: Lit)
    requires Connected(literals, garbage, occs, vars, next) && r in literals && l in literals[r] && !Listed(occs, l, r)
    ensures l in occs && Connected(literals, garbage, occs[l := occs[l] + [r]], vars, next)
  {
    assert ClauseVars(literals[r]) <= vars && Var(l) in ClauseVars(literals[r]);
  }

  lemma AllConnected(literals: map<nat, Clause>, garbage: set<nat>, occs: map<Lit, seq<nat>>, vars: set<int>, next: nat,
        r: nat, c: Clause)
    requires Connected(literals, garbage + {r}, occs, vars, next) && r in literals && literals[r] == c && r !in garbage
    requires forall j :: 0 <= j < |c| ==> Listed(occs, c[j], r)
    ensures Connected(literals, garbage, occs, vars, next)
  {
  }

  lemma NewClauseMoves(s: State, r: nat, c: Clause, p: Lit)
    requires r !in s.literals && r !in s.garbage && Implied(F(s), Lits(c)) && p !in c && Neg(p) !in c
    ensures Moves(s, s.(literals := s.literals[r := c]), p)
  {
    var t := s.(literals := s.literals[r := c]);
    forall d
      ensures d in Live(t.literals, t.garbage) <==> d in Live(s.literals, s.garbage) + {Lits(c)}
    {
      if d in Live(s.literals, s.garbage) {
        var q :| q in s.literals && q !in s.garbage && d == Lits(s.literals[q]);
        assert q in t.literals && t.literals[q] == s.literals[q];
      }
      if d == Lits(c) {
        assert r in t.literals && Lits(t.literals[r]) == d;
      }
    }
    assert F(t) == F(s) + {Lits(c)};
    AddImplied(F(s), Lits(c), p);
  }

  ghost function Both(d: Clause, vals: map<int, bool>, first: seq<Lit>): set<Lit> {
    set l | l in d && l in first && Val(l, vals) == 0
  }

  lemma BothHas(d: Clause, vals: map<int, bool>, first: seq<Lit>, l: Lit)
    requires l in d && l in first && Val(l, vals) == 0
    ensures l in Both(d, vals, first)
  {
  }

  lemma BothAll(d: Clause, vals: map<int, bool>, first: seq<Lit>, both: set<Lit>)
    requires forall j :: 0 <= j < |d| && d[j] in first && Val(d[j], vals) == 0 ==> d[j] in both
    ensures Both(d, vals, first) <= both
  {
  }

  /** An unassigned literal among the first `k`, other than the pivot. */
  predicate Taken(d: Clause, k: nat, negPivot: Lit, vals: map<int, bool>, l: Lit)
    requires k <= |d|
  {
    l in d[..k] && l != negPivot && Val(l, vals) == 0
  }

  /** The number of elements. */
  ghost function Size(s: set<Lit>): nat {
    |s|
  }

  lemma SizeAdd(s: set<Lit>, l: Lit)
    requires l !in s
    ensures Size(s + {l}) == Size(s) + 1
  {
  }

  lemma TakenNone(d: Clause, negPivot: Lit, vals: map<int, bool>)
    ensures forall l :: !Taken(d, 0, negPivot, vals, l)
    ensures Size({}) == 0
  {
  }

  lemma TakenStep(d: Clause, k: nat, negPivot: Lit, vals: map<int, bool>)
    requires k < |d| && NoDuplicates(d)
    ensures !Taken(d, k, negPivot, vals, d[k])
    ensures forall l :: Taken(d, k + 1, negPivot, vals, l) <==>
      Taken(d, k, negPivot, vals, l) || (l == d[k] && l != negPivot && Val(l, vals) == 0)
  {
    PrefixStep(d, k);
  }

  lemma TakenAll(d: Clause, negPivot: Lit, vals: map<int, bool>)
    ensures forall l :: Taken(d, |d|, negPivot, vals, l) <==> l in Actual(d, vals) && l != negPivot
  {
    assert d[..|d|] == d;
  }

  lemma PrefixStep(c: Clause, k: nat)
    requires k < |c| && NoDuplicates(c)
    ensures c[k] !in c[..k] && forall l :: l in c[..k+1] <==> l in c[..k] || l == c[k]
  {
    assert c[..k+1] == c[..k] + [c[k]];
  }

  lemma {:induction false} DistinctCount(c: Clause)
    requires NoDuplicates(c)
    ensures |Lits(c)| == |c|
  {
    if c != [] {
      var k := |c| - 1;
      DistinctCount(c[..k]);
      LitsOfPrefix(c, k);
      assert c[..k+1] == c;
      PrefixStep(c, k);
      assert c[k] !in Lits(c[..k]);
    } else {
      assert Lits(c) == {};
    }
  }

  lemma SameWhenAsMany(a: set<Lit>, b: set<Lit>)
    requires a <= b && |a| >= |b|
    ensures a == b
  {
    assert b == a + (b - a);
    assert |b| == |a| + |b - a|;
  }

  lemma AllCommon(d: Clause, vals: map<int, bool>, first: seq<Lit>, both: set<Lit>)
    requires NoDuplicates(first) && both == Both(d, vals, first) && Lits(first) <= Actual(d, vals)
    ensures Size(both) >= |first|
  {
    hide NoDuplicates;
    DistinctCount(first);
    forall l | l in Lits(first)
      ensures l in both
    {
      assert l in Actual(d, vals);
    }
    assert both == Lits(first);
  }

  lemma SecondDone(d: Clause, vals: map<int, bool>, negPivot: Lit, first: seq<Lit>, lits: seq<Lit>, both: set<Lit>)
    requires NoDuplicates(first) && both <= Both(d, vals, first)
    requires forall l :: l in lits <==> l in first || (l in Actual(d, vals) && l != negPivot)
    ensures Lits(lits) == Lits(first) + (Actual(d, vals) - {negPivot})
    ensures Size(both) >= |first| ==> Lits(first) <= Actual(d, vals)
    ensures Both(d, vals, first) <= both && Lits(first) <= Actual(d, vals) ==> Size(both) >= |first|
    ensures (forall l :: l in Actual(d, vals) && l != negPivot ==> l in first) <==>
      Actual(d, vals) - {negPivot} <= Lits(first)
  {
    hide Size;
    AsManyCommon(d, vals, first, both);
    if Both(d, vals, first) <= both && Lits(first) <= Actual(d, vals) {
      AllCommon(d, vals, first, both);
    }
    if Actual(d, vals) - {negPivot} <= Lits(first) {
      forall l | l in Actual(d, vals) && l != negPivot
        ensures l in first
      {
        assert l in Actual(d, vals) - {negPivot};
      }
    }
  }

  lemma AsManyCommon(d: Clause, vals: map<int, bool>, first: seq<Lit>, both: set<Lit>)
    requires NoDuplicates(first) && both <= Both(d, vals, first)
    ensures Size(both) >= |first| ==> Lits(first) <= Actual(d, vals)
  {
    hide NoDuplicates;
    DistinctCount(first);
    if |both| >= |first| {
      assert both <= Lits(first);
      SameWhenAsMany(both, Lits(first));
      assert both <= Actual(d, vals);
    }
  }

  ghost predicate Dropped(l: Lit, occs: map<Lit, seq<nat>>, garbage: set<nat>) {
    l in occs ==> forall r :: r in occs[l] ==> r in garbage
  }

  /** Clauses became garbage only with a true literal. */
  ghost predicate NewGarbage(garbage0: set<nat>, garbage: set<nat>, literals: map<nat, Clause>, vals: map<int, bool>) {
    forall r :: r in garbage && r !in garbage0 ==> r in literals && HasTrue(literals[r], vals)
  }

  ghost predicate AllTrue(work: seq<Lit>, vals: map<int, bool>, vars: set<int>) {
    forall k :: 0 <= k < |work| ==> Val(work[k], vals) > 0 && Var(work[k]) in vars
  }

  ghost predicate InWork(vals0: map<int, bool>, vals: map<int, bool>, root: Lit, work: seq<Lit>) {
    && root in work && (forall v :: v in vals0 ==> v in vals && vals[v] == vals0[v])
    && forall l :: Val(l, vals) > 0 && Val(l, vals0) == 0 ==> l in work
  }

  lemma StartWork(vals: map<int, bool>, vars: set<int>, root: Lit)
    requires Val(root, vals) > 0 && vals.Keys <= vars
    ensures AllTrue([root], vals, vars) && InWork(vals, vals, root, [root])
  {
    assert Var(root) in vals.Keys;
  }

  lemma TrueAt(work: seq<Lit>, vals: map<int, bool>, vars: set<int>, i: nat)
    requires AllTrue(work, vals, vars) && i < |work|
    ensures Val(work[i], vals) > 0 && Var(work[i]) in vars
  {
  }

  lemma MoreWork(work: seq<Lit>, vals0: map<int, bool>, vals: map<int, bool>, vars: set<int>, root: Lit, unit: Lit)
    requires AllTrue(work, vals, vars) && InWork(vals0, vals, root, work) && Val(unit, vals) == 0 && Var(unit) in vars
    ensures AllTrue(work + [unit], SetFalse(Neg(unit), vals), vars)
    ensures InWork(vals0, SetFalse(Neg(unit), vals), root, work + [unit])
  {
    var now := SetFalse(Neg(unit), vals);
    forall l | Val(l, now) > 0 && Val(l, vals0) == 0
      ensures l in work + [unit]
    {
      assert Val(l, vals) > 0 || l == unit;
    }
  }

  lemma StillDropped(work: seq<Lit>, i: nat, occs: map<Lit, seq<nat>>, garbage0: set<nat>, garbage: set<nat>)
    requires garbage0 <= garbage && i <= |work|
    ensures (forall k :: 0 <= k < i ==> Dropped(work[k], occs, garbage0)) ==>
      forall k :: 0 <= k < i ==> Dropped(work[k], occs, garbage)
  {
  }

  lemma WorkTrue(work: seq<Lit>, vals: map<int, bool>, vars: set<int>, root: Lit, vals0: map<int, bool>, done: seq<Lit>)
    requires AllTrue(work, vals, vars) && InWork(vals0, vals, root, work) && done <= work
    ensures forall l :: l in done ==> Val(l, vals) > 0
    ensures forall v :: v in vals0 ==> v in vals && vals[v] == vals0[v]
  {
  }

  lemma Reached(literals: map<nat, Clause>, garbage: set<nat>, occs: map<Lit, seq<nat>>, vars: set<int>, next: nat,
        l: Lit)
    requires Connected(literals, garbage, occs, vars, next) && l in occs
    ensures forall r :: r in literals && r !in garbage && l in literals[r] ==> r in occs[l]
  {
  }

  lemma WorkDone(vals0: map<int, bool>, vals: map<int, bool>, root: Lit, work: seq<Lit>, literals: map<nat, Clause>,
        occs: map<Lit, seq<nat>>, garbage: set<nat>, unsat: bool, i: nat)
    requires InWork(vals0, vals, root, work) && i <= |work| && (!unsat ==> i == |work|)
    requires !unsat ==> forall k :: 0 <= k < i ==> Dropped(work[k], occs, garbage)
    requires !unsat ==> AllHeld(literals, garbage, occs, vals, vals0, work)
    ensures !unsat ==> forall l :: Val(l, vals) > 0 && (l == root || Val(l, vals0) == 0) ==>
      Dropped(l, occs, garbage) && QuietOn(l, literals, garbage, occs, vals)
  {
    hide AllHeld, QuietOn;
    if !unsat {
      AllQuiet(literals, garbage, occs, vals, vals0, work);
    }
  }

  lemma NoNewGarbage(garbage: set<nat>, literals: map<nat, Clause>, vals: map<int, bool>)
    ensures NewGarbage(garbage, garbage, literals, vals)
  {
  }

  lemma OneNewGarbage(garbage: set<nat>, c: nat, l: Lit, literals: map<nat, Clause>, vals: map<int, bool>)
    requires c in literals && l in literals[c] && Val(l, vals) > 0
    ensures NewGarbage(garbage, garbage + {c}, literals, vals)
  {
  }

  lemma GarbageTrans(g0: set<nat>, g1: set<nat>, g2: set<nat>, literals: map<nat, Clause>, vals1: map<int, bool>,
        vals: map<int, bool>)
    requires NewGarbage(g0, g1, literals, vals1) && NewGarbage(g1, g2, literals, vals)
    requires forall v :: v in vals1 ==> v in vals && vals[v] == vals1[v]
    ensures NewGarbage(g0, g2, literals, vals)
  {
    forall r | r in g2 && r !in g0
      ensures r in literals && HasTrue(literals[r], vals)
    {
      if r in g1 {
        var l :| l in literals[r] && Val(l, vals1) > 0;
        assert Val(l, vals) > 0;
      }
    }
  }

  lemma ValuesPositive(literals: map<nat, Clause>, garbage: set<nat>, occs: map<Lit, seq<nat>>, vars: set<int>,
        next: nat, vals: map<int, bool>)
    requires Connected(literals, garbage, occs, vars, next) && vals.Keys <= vars
    ensures forall v :: v in vals ==> v > 0
  {
    forall v | v in vals
      ensures v > 0
    {
      assert v in vals.Keys;
    }
  }

  lemma MoreGarbage(literals: map<nat, Clause>, garbage: set<nat>, occs: map<Lit, seq<nat>>, vars: set<int>, next: nat,
        c: nat)
    requires Connected(literals, garbage, occs, vars, next) && c in literals
    ensures Connected(literals, garbage + {c}, occs, vars, next)
  {
  }

  lemma ListsHave(literals: map<nat, Clause>, garbage: set<nat>, occs: map<Lit, seq<nat>>, vars: set<int>, next: nat,
        l: Lit)
    requires Connected(literals, garbage, occs, vars, next) && Var(l) in vars
    ensures l in occs && forall r :: r in occs[l] ==> r in literals && l in literals[r]
  {
  }

  lemma UnitFacts(literals: map<nat, Clause>, garbage: set<nat>, occs: map<Lit, seq<nat>>, vars: set<int>, next: nat,
        vals: map<int, bool>, c: nat, unit: Lit)
    requires Connected(literals, garbage, occs, vars, next) && c in literals && Actual(literals[c], vals) == {unit}
    ensures Val(unit, vals) == 0 && Var(unit) in vars && unit in literals[c]
  {
    assert unit in Actual(literals[c], vals);
    assert ClauseVars(literals[c]) <= vars && Var(unit) in ClauseVars(literals[c]);
  }
}

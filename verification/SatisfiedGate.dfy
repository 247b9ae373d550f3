/** An if-then-else that is flagged although one of its clauses is satisfied: how a
    delayed unit leads to it, and a model that cannot be repaired. */
module SatisfiedGate {
  import opened Logic
  import opened Reconstruction
  import opened Clauses
  import opened Elimination
  import opened Elim
  import opened GateLogic
  import opened Gates
  import opened IteGates
  import opened Eliminate

  /** Clauses 0 to 5 contain the variable 1; clauses 6 and 7 the variable 8. */
  function Database(): map<nat, Clause> {
    map[0 := [1, 2, 3, 5], 1 := [1, -2, 4], 2 := [-1, 2, -3], 3 := [-1, -2, -4], 4 := [1, 6], 5 := [-1, 7],
        6 := [8, 5, 9], 7 := [-8, 5, 10]]
  }

  /** Nothing is assigned but 9 and 10, which became false while the resolvents on
      8 were counted. */
  function Counted(): State {
    State(Database(), {}, map[9 := false, 10 := false], false)
  }

  function Values(): map<int, bool> {
    map[9 := false, 10 := false, 5 := true]
  }

  // ------------------------------------------------------------ a delayed unit

  lemma NotTrue(c: Clause, vals: map<int, bool>)
    requires forall k :: 0 <= k < |c| ==> Val(c[k], vals) <= 0
    ensures !HasTrue(c, vals)
  {
  }

  /** No clause is satisfied, and every clause has two unassigned literals. */
  lemma CountedIsClosed()
    ensures var s := Counted();
      forall r :: r in s.literals ==>
        && !HasTrue(s.literals[r], s.vals) && |s.literals[r]| >= 2
        && Val(s.literals[r][0], s.vals) == 0 && Val(s.literals[r][1], s.vals) == 0
  {
    var s := Counted();
    forall r | r in s.literals
      ensures !HasTrue(s.literals[r], s.vals)
    {
      NotTrue(s.literals[r], s.vals);
    }
  }

  lemma ActualIs(c: Clause, ls: seq<Lit>, vals: map<int, bool>)
    requires forall l: Lit :: l in ls <==> l in c && Val(l, vals) == 0
    ensures Actual(c, vals) == Lits(ls)
  {
    forall l: Lit
      ensures l in Actual(c, vals) <==> l in Lits(ls)
    {
    }
  }

  lemma CountedResolvent()
    ensures UnitResolvent(Counted(), 6, 7, 8, 5)
  {
    hide HasTrue;
    var s := Counted();
    CountedIsClosed();
    ActualIs(s.literals[6], [8, 5], s.vals);
    ActualIs(s.literals[7], [-8, 5], s.vals);
    assert 5 in [8, 5];
    assert (Lits([8, 5]) + Lits([-8, 5])) - {8, Neg(8)} == {5};
  }

  lemma HasTrueAt(c: Clause, k: nat, vals: map<int, bool>)
    requires k < |c| && Val(c[k], vals) > 0
    ensures HasTrue(c, vals)
  {
    assert c[k] in c;
  }

  /** Satisfied clauses have been dropped and propagation is complete, yet adding
      one resolvent on 8 assigns 5: then clause 0 is satisfied, and it stays. */
  method DelayedUnit(e: Eliminator)
    requires e.Valid() && e.S() == Counted() && e.clause == []
    modifies e`literals, e`garbage, e`occs, e`vals, e`unsat, e`next, e`clause
    ensures Clean(Database(), {}, Counted().vals, 1)
    ensures e.literals == Database() && e.garbage == {} && e.vals == Values() && !e.unsat
    ensures HasTrue(e.literals[0], e.vals) && !Clean(e.literals, e.garbage, e.vals, 1)
  {
    hide Database, HasTrue, UnitResolvent, Connected, Moves, ResolventHolds, Resolvent, SameLists, Clean, Val, SetFalse;
    CountedResolvent();
    CleanBefore();
    NotCleanAfter();
    var needed := e.Resolve(6, 8, 7, false);
  }

  lemma CleanBefore()
    ensures Clean(Database(), {}, Counted().vals, 1)
    ensures 6 in Database() && 7 in Database() && 8 in Database()[6] && Neg(8) in Database()[7]
    ensures Val(8, Counted().vals) == 0 && SetFalse(Neg(5), Counted().vals) == Values()
  {
    CountedIsClosed();
    assert SetFalse(Neg(5), Counted().vals) == Values();
  }

  lemma NotCleanAfter()
    ensures 0 in Database() && HasTrue(Database()[0], Values()) && !Clean(Database(), {}, Values(), 1)
  {
    assert Database()[0] == [1, 2, 3, 5] && 1 in Database()[0];
    HasTrueAt(Database()[0], 3, Values());
  }

  // ----------------------------------------------------------------- the search

  /** The next variable is 1, and nothing has been dropped but clauses with 8. */
  ghost predicate Next(e: Eliminator)
    reads e
  {
    && Ready(e, 1) && !e.unsat && e.literals == Database() && e.vals == Values()
    && forall r :: r in e.literals && r <= 5 ==> r !in e.garbage
  }

  lemma TernaryAt(c: Clause, a: Lit, b: Lit, d: Lit, vals: map<int, bool>)
    requires forall l: Lit :: l in [a, b, d] <==> l in c && Val(l, vals) == 0
    requires a != b && a != d && b != d
    ensures Ternary(c, a, b, d, vals)
  {
    ActualIs(c, [a, b, d], vals);
    ThreeLiterals([a, b, d]);
  }

  lemma FourTernaries()
    ensures var cs, vals := Database(), Values();
      && Ternary(cs[0], 1, 2, 3, vals) && Ternary(cs[1], 1, -2, 4, vals)
      && Ternary(cs[2], -1, 2, -3, vals) && Ternary(cs[3], -1, -2, -4, vals)
    ensures HasTrue(Database()[0], Values())
  {
    hide HasTrue;
    var cs, vals := Database(), Values();
    TernaryAt(cs[0], 1, 2, 3, vals);
    TernaryAt(cs[1], 1, -2, 4, vals);
    TernaryAt(cs[2], -1, 2, -3, vals);
    TernaryAt(cs[3], -1, -2, -4, vals);
    HasTrueAt(cs[0], 3, vals);
  }

  lemma FirstTernary()
    ensures var ls := Unassigned(Database()[0], Values()); |ls| == 3 && ConditionOf(ls, 1) == 2
    ensures var ls := Unassigned(Database()[1], Values()); |ls| == 3 && ConditionOf(ls, 1) == -2
  {
    hide Unassigned;
    var vals := Values();
    UnassignedNone(vals);
    UnassignedAppend([], 1, vals);
    UnassignedAppend([1], 2, vals);
    UnassignedAppend([1, 2], 3, vals);
    UnassignedAppend([1, 2, 3], 5, vals);
    UnassignedAppend([1], -2, vals);
    UnassignedAppend([1, -2], 4, vals);
    assert [] + [1] == [1] && [1] + [2] == [1, 2] && [1, 2] + [3] == [1, 2, 3] && [1, 2, 3] + [5] == [1, 2, 3, 5];
    assert [1] + [-2] == [1, -2] && [1, -2] + [4] == [1, -2, 4];
  }

  lemma UnassignedNone(vals: map<int, bool>)
    ensures Unassigned([], vals) == []
  {
  }

  lemma UnassignedAppend(c: Clause, l: Lit, vals: map<int, bool>)
    ensures Unassigned(c + [l], vals) == Unassigned(c, vals) + if Val(l, vals) == 0 then [l] else []
  {
    assert (c + [l])[..|c|] == c;
  }

  /** Whichever of the two clauses with 1 comes first, the other completes it. */
  lemma BothComplete(s: State)
    requires s.literals == Database() && s.vals == Values() && forall r :: r <= 5 ==> r !in s.garbage
    ensures IteAt(s, 0, 1, 1) && IteAt(s, 1, 0, 1)
  {
    hide Ternary, Unassigned;
    FourTernaries();
    FirstTernary();
    assert Ternary(s.literals[2], Neg(1), 2, Neg(3), s.vals) && Ternary(s.literals[3], Neg(1), -2, Neg(4), s.vals);
    assert HasTernary(s, Neg(1), 2, Neg(3)) && HasTernary(s, Neg(1), -2, Neg(4));
    assert Neg(2) == -2 && Neg(-2) == 2;
    assert Completes(s, 1, 1, 2, 3, 4) && Completes(s, 0, 1, -2, 4, 3);
  }

  lemma TwoListed(e: Eliminator)
    requires Next(e)
    ensures HasIte(e.S(), e.occs[1], 1)
  {
    hide IteAt, HasTrue;
    var os := e.occs[1];
    assert 1 in e.literals[0] && 1 in e.literals[1];
    assert 0 in os && 1 in os;
    var i :| 0 <= i < |os| && os[i] == 0;
    var j :| 0 <= j < |os| && os[j] == 1;
    BothComplete(e.S());
    assert i != j;
    if i < j {
      assert IteAt(e.S(), os[i], os[j], 1);
    } else {
      assert IteAt(e.S(), os[j], os[i], 1);
    }
  }

  lemma ActualOfSix()
    ensures var cs, vals := Database(), Values();
      && Actual(cs[0], vals) == {1, 2, 3} && Actual(cs[1], vals) == {1, -2, 4}
      && Actual(cs[2], vals) == {-1, 2, -3} && Actual(cs[3], vals) == {-1, -2, -4}
      && Actual(cs[4], vals) == {1, 6} && Actual(cs[5], vals) == {-1, 7}
      && Actual(cs[6], vals) == {8} + {9, 5} - {9, 5} && Actual(cs[7], vals) == {-8}
  {
    var cs, vals := Database(), Values();
    FourTernaries();
    ActualIs(cs[4], [1, 6], vals);
    ActualIs(cs[5], [-1, 7], vals);
    ActualIs(cs[6], [8], vals);
    ActualIs(cs[7], [-8], vals);
    assert Lits([1, 6]) == {1, 6} && Lits([-1, 7]) == {-1, 7} && Lits([8]) == {8} && Lits([-8]) == {-8};
  }

  /** Only the clauses 0 to 3 have three unassigned literals, one of them 1 or -1. */
  lemma OnlyFour(r: nat, p: Lit, b: Lit, c: Lit)
    requires r in Database() && (p == 1 || p == -1) && b != p && c != p && b != c
    requires Actual(Database()[r], Values()) == {p, b, c}
    ensures if p == 1 then r == 0 || r == 1 else r == 2 || r == 3
    ensures b == 2 || b == -2 || b == 3 || b == 4 || b == -3 || b == -4
  {
    ActualOfSix();
    var a := Actual(Database()[r], Values());
    assert p in a && b in a && c in a;
  }

  lemma OnlyGate(gate: set<nat>)
    requires IsIte(Database(), gate, 1, Values())
    ensures gate == {0, 1, 2, 3}
  {
    hide Actual, Database;
    var di, dj, d1, d2, b, c, x :|
      gate == {di, dj, d1, d2} && IteClauses(Database(), di, dj, d1, d2, 1, b, c, x, Values());
    OnlyFour(di, 1, b, c);
    OnlyFour(dj, 1, Neg(b), x);
    OnlyFour(d1, -1, b, Neg(c));
    OnlyFour(d2, -1, Neg(b), Neg(x));
    NoComplement(di, b);
    NoComplement(d1, b);
    assert di != dj && d1 != d2;
  }

  lemma NoComplement(r: nat, l: Lit)
    requires r in Database()
    ensures !(l in Actual(Database()[r], Values()) && Neg(l) in Actual(Database()[r], Values()))
  {
    ActualOfSix();
  }

  /** The search for an if-then-else flags the satisfied clause 0, and what it
      flags does not force the variable. */
  method SatisfiedGateFlagged(e: Eliminator)
    requires Next(e)
    modifies e`gate, e`gates
    ensures e.gate == {0, 1, 2, 3} && HasTrue(e.literals[0], e.vals)
    ensures !GateOver(e.literals, e.gate, 1, e.vals)
  {
    hide GateOver, NoneSatisfied, HasTrue, HasIte, Found;
    TwoListed(e);
    FindIfThenElse(e, 1);
    OnlyGate(e.gate);
    FourTernaries();
    SatisfiedMember(e.gate);
    ShapesAreGates(e.literals, e.gate, 1, e.vals);
  }

  lemma SatisfiedMember(gate: set<nat>)
    requires 0 in gate && HasTrue(Database()[0], Values())
    ensures !NoneSatisfied(Database(), gate, Values())
  {
  }

  // ------------------------------------------------------------------ the model

  ghost function Remaining(c: nat, d: nat): set<Lit>
    requires c in Database() && d in Database()
  {
    (Actual(Database()[c], Values()) + Actual(Database()[d], Values())) - {1, -1}
  }

  /** Clauses with 1 and -1 that are resolved when the clauses 0 to 3 are the gate. */
  ghost predicate Resolved(c: nat, d: nat) {
    && c in Database() && d in Database() && 1 in Database()[c] && -1 in Database()[d]
    && Pairs({0, 1, 2, 3}, true, c, d)
    && !HasTrue(Database()[c], Values()) && !HasTrue(Database()[d], Values())
  }

  lemma TrueIn(c: set<Lit>, l: Lit, m: Model)
    requires l in c && True(l, m)
    ensures SatLits(c, m)
  {
  }

  lemma OnlyPairs(c: nat, d: nat)
    requires Resolved(c, d)
    ensures (c == 1 && d == 5) || (c == 4 && (d == 2 || d == 3))
  {
    FourTernaries();
    assert c == 0 || c == 1 || c == 4;
    assert d == 2 || d == 3 || d == 5;
  }

  /** The model satisfies the values, the satisfied clauses, and the resolvents of
      all pairs that are resolved; but whatever value the variable gets, one of the
      clauses with it is false. */
  lemma SatisfiedGateClause() returns (m: Model)
    ensures Agrees(m, Values())
    ensures forall r :: r in Database() && HasTrue(Database()[r], Values()) ==> SatClause(Database()[r], m)
    ensures forall c, d :: Resolved(c, d) ==> SatLits(Remaining(c, d), m)
    ensures forall n: Model :: (forall v :: v != 1 ==> (v in n <==> v in m)) ==>
      !SatClause(Database()[4], n) || !SatClause(Database()[5], n)
  {
    hide SatLits, Actual, HasTrue;
    m := {5};
    forall r | r in Database() && HasTrue(Database()[r], Values())
      ensures SatClause(Database()[r], m)
    {
      TrueClause(Database()[r], m);
    }
    ActualOfSix();
    forall c, d | Resolved(c, d)
      ensures SatLits(Remaining(c, d), m)
    {
      OnlyPairs(c, d);
      TrueIn(Remaining(c, d), if c == 1 then -2 else if d == 2 then -3 else -2, m);
    }
  }

  lemma TrueClause(c: Clause, m: Model)
    requires HasTrue(c, Values()) && Agrees(m, Values())
    ensures SatClause(c, m)
  {
    var l :| l in c && Val(l, Values()) > 0;
    AgreesTrue(m, Values(), l);
  }
}

/** Searching for AND gates: a long clause and binary clauses for its literals. */
module AndGates {
  import opened Logic
  import opened Clauses
  import opened Elimination
  import opened Elim
  import opened GateLogic
  import opened Gates

  /** The unassigned literals of a base clause but the negated pivot. */
  ghost function Base(c: Clause, pivot: Lit, vals: map<int, bool>): set<Lit> {
    Actual(c, vals) - {Neg(pivot)}
  }

  /** Are the negations of all other literals of the clause marked?  The search
      stops at the first literal that is true or not marked. */
  method ScanBase(e: Eliminator, c: Clause, pivot: Lit) returns (allMarked: bool, satisfied: Option<Lit>)
    requires Val(pivot, e.vals) == 0
    ensures satisfied.Some? ==> satisfied.value in c && Val(satisfied.value, e.vals) > 0
    ensures allMarked && satisfied == None ==>
      !HasTrue(c, e.vals) && forall l :: l in Base(c, pivot, e.vals) ==> Marked(e.marks, l) < 0
    ensures !allMarked ==> exists l :: l in Base(c, pivot, e.vals) && Marked(e.marks, l) >= 0
  {
    allMarked, satisfied := true, None;
    for k := 0 to |c|
      invariant allMarked && satisfied == None
      invariant forall j :: 0 <= j < k ==> Val(c[j], e.vals) <= 0
      invariant forall j :: 0 <= j < k && c[j] != Neg(pivot) && Val(c[j], e.vals) == 0 ==> Marked(e.marks, c[j]) < 0
    {
      var lit := c[k];
      if lit == Neg(pivot) {
        continue;
      }
      var tmp := Val(lit, e.vals);
      if tmp < 0 {
        continue;
      }
      if tmp > 0 {
        satisfied := Some(lit);
        break;
      }
      if Marked(e.marks, lit) < 0 {
        continue;
      }
      assert lit in Base(c, pivot, e.vals);
      allMarked := false;
      break;
    }
  }

  ghost predicate Doubled(marks: map<int, int>, marks0: map<int, int>, done: set<int>) {
    && marks.Keys == marks0.Keys
    && forall v :: v in marks ==> marks[v] == if v in done then 2 * marks0[v] else marks0[v]
  }

  ghost predicate Signs(marks: map<int, int>) {
    forall v :: v in marks ==> marks[v] == 1 || marks[v] == -1
  }

  /** Exactly the negations of the base literals get the mark two. */
  method DoubleMarks(e: Eliminator, c: Clause, pivot: Lit)
    requires NoDuplicates(c) && Elim.Consistent(Lits(c)) && !HasTrue(c, e.vals) && Signs(e.marks)
    requires OnStack(e.marks, e.markedStack)
    requires forall l :: l in Base(c, pivot, e.vals) ==> Marked(e.marks, l) < 0
    modifies e`marks
    ensures OnStack(e.marks, e.markedStack)
    ensures forall x: Lit :: Marked(e.marks, x) == 2 <==> Neg(x) in Base(c, pivot, e.vals)
  {
    ghost var marks0, done: set<int> := e.marks, {};
    for k := 0 to |c|
      invariant Doubled(e.marks, marks0, done)
      invariant forall v :: v in done <==> exists j :: 0 <= j < k && c[j] in Base(c, pivot, e.vals) && Var(c[j]) == v
    {
      var lit := c[k];
      if lit == Neg(pivot) {
        continue;
      }
      if Val(lit, e.vals) < 0 {
        continue;
      }
      NotTrue(c, e.vals, k);
      assert lit in Base(c, pivot, e.vals);
      DistinctVar(c, k);
      e.marks := e.marks[Var(lit) := 2 * e.marks[Var(lit)]];
      done := done + {Var(lit)};
    }
    DoubledMeans(c, pivot, e.vals, e.marks, marks0, done);
  }

  lemma NotTrue(c: Clause, vals: map<int, bool>, k: nat)
    requires k < |c| && !HasTrue(c, vals)
    ensures Val(c[k], vals) <= 0
  {
    assert c[k] in c;
  }

  lemma DistinctVar(c: Clause, k: nat)
    requires k < |c| && NoDuplicates(c) && Elim.Consistent(Lits(c))
    ensures forall j :: 0 <= j < |c| && j != k ==> Var(c[j]) != Var(c[k])
  {
    forall j | 0 <= j < |c| && j != k
      ensures Var(c[j]) != Var(c[k])
    {
      assert c[j] in Lits(c) && c[k] in Lits(c);
      assert c[j] != Neg(c[k]);
    }
  }

  lemma DoubledMeans(c: Clause, pivot: Lit, vals: map<int, bool>, marks: map<int, int>, marks0: map<int, int>,
        done: set<int>)
    requires Doubled(marks, marks0, done) && Signs(marks0)
    requires forall l :: l in Base(c, pivot, vals) ==> Marked(marks0, l) < 0
    requires forall v :: v in done <==> exists j :: 0 <= j < |c| && c[j] in Base(c, pivot, vals) && Var(c[j]) == v
    ensures forall x: Lit :: Marked(marks, x) == 2 <==> Neg(x) in Base(c, pivot, vals)
  {
    forall x: Lit
      ensures Marked(marks, x) == 2 <==> Neg(x) in Base(c, pivot, vals)
    {
      if Neg(x) in Base(c, pivot, vals) {
        var j :| 0 <= j < |c| && c[j] == Neg(x);
        assert Var(x) in done && Marked(marks0, Neg(x)) == -1;
      }
      if Marked(marks, x) == 2 {
        assert Var(x) in done;
        var j :| 0 <= j < |c| && c[j] in Base(c, pivot, vals) && Var(c[j]) == Var(x);
        assert Marked(marks0, c[j]) < 0;
      }
    }
  }

  // ---------------------------------------------------------------- side clauses

  /** A clause still to be visited is a side clause for `l`. */
  ghost predicate Pending(s: State, ps: seq<nat>, k: nat, pivot: Lit, l: Lit) {
    exists i :: k <= i < |ps| && Witness(ps[i], s.literals, s.garbage, s.vals, pivot, Neg(l))
  }

  /** What has been collected when the first `k` clauses have been visited. */
  ghost predicate Sides(s: State, gate: set<nat>, c: nat, ps: seq<nat>, k: nat, base: set<Lit>, pivot: Lit) {
    && c in gate
    && (forall d :: d in gate && d != c ==>
          d in s.literals && d !in s.garbage && SideOfSome(s.literals, d, base, pivot, s.vals))
    && (forall l :: l in base ==> HasSide(s.literals, gate, c, l, pivot, s.vals) || Pending(s, ps, k, pivot, l))
  }

  lemma StartSides(s: State, c: nat, ps: seq<nat>, base: set<Lit>, pivot: Lit, marks: map<int, int>, stack: seq<Lit>)
    requires MarksOk(marks, stack, s.literals, s.garbage, s.vals, ps, |ps|, pivot)
    requires forall l :: l in base ==> Marked(marks, l) < 0
    ensures Sides(s, {c}, c, ps, 0, base, pivot)
  {
    forall l | l in base
      ensures Pending(s, ps, 0, pivot, l)
    {
      assert Marked(marks, Neg(l)) == 1;
      assert MarkWitness(s.literals, s.garbage, s.vals, ps, |ps|, pivot, Neg(l));
    }
  }

  /** Clauses that are dropped have true literals, side clauses have not. */
  lemma SidesMoved(s: State, t: State, gate: set<nat>, c: nat, ps: seq<nat>, k: nat, base: set<Lit>, pivot: Lit, p: Lit)
    requires Sides(s, gate, c, ps, k, base, pivot) && Keeps(s, t, p) && t.vals == s.vals && t.literals == s.literals
    requires NewGarbage(s.garbage, t.garbage, t.literals, t.vals)
    ensures Sides(t, gate, c, ps, k, base, pivot)
  {
    hide Keeps;
    forall d | d in gate && d != c
      ensures d !in t.garbage
    {
      assert SideOfSome(s.literals, d, base, pivot, s.vals);
      SideNotTrue(s.literals, d, base, pivot, s.vals);
    }
    forall l | l in base
      ensures HasSide(t.literals, gate, c, l, pivot, t.vals) || Pending(t, ps, k, pivot, l)
    {
      if Pending(s, ps, k, pivot, l) {
        var i :| k <= i < |ps| && Witness(ps[i], s.literals, s.garbage, s.vals, pivot, Neg(l));
        WitnessKept(ps[i], s, t, pivot, Neg(l), p);
      }
    }
  }

  lemma SideNotTrue(literals: map<nat, Clause>, d: nat, base: set<Lit>, p: Lit, vals: map<int, bool>)
    requires SideOfSome(literals, d, base, p, vals)
    ensures d in literals && !HasTrue(literals[d], vals) && p in literals[d]
  {
    var l :| l in base && SideClause(literals, d, p, Neg(l), vals) && Neg(p) !in literals[d];
    assert p in Actual(literals[d], vals);
  }

  /** The clause at `k` is no side clause that is still missing. */
  lemma SkipSide(s: State, gate: set<nat>, c: nat, ps: seq<nat>, k: nat, base: set<Lit>, pivot: Lit)
    requires k < |ps| && Sides(s, gate, c, ps, k, base, pivot)
    requires forall l :: l in base ==> !Witness(ps[k], s.literals, s.garbage, s.vals, pivot, Neg(l))
    ensures Sides(s, gate, c, ps, k + 1, base, pivot)
  {
    forall l | l in base
      ensures HasSide(s.literals, gate, c, l, pivot, s.vals) || Pending(s, ps, k + 1, pivot, l)
    {
      if Pending(s, ps, k, pivot, l) {
        var i :| k <= i < |ps| && Witness(ps[i], s.literals, s.garbage, s.vals, pivot, Neg(l));
      }
    }
  }

  lemma AddSide(s: State, gate: set<nat>, c: nat, ps: seq<nat>, k: nat, base: set<Lit>, pivot: Lit, x: Lit)
    requires k < |ps| && Sides(s, gate, c, ps, k, base, pivot) && ps[k] != c && ps[k] in s.literals
    requires ps[k] !in s.garbage
    requires BinaryIn(s.literals[ps[k]], pivot, x, s.vals) && Neg(x) in base && Neg(pivot) !in s.literals[ps[k]]
    ensures Sides(s, gate + {ps[k]}, c, ps, k + 1, base, pivot)
  {
    hide BinaryIn;
    var d, now := ps[k], gate + {ps[k]};
    assert Neg(Neg(x)) == x;
    SideIsBinary(s.literals, d, pivot, x, s.vals);
    assert SideOfSome(s.literals, d, base, pivot, s.vals);
    forall l | l in base
      ensures HasSide(s.literals, now, c, l, pivot, s.vals) || Pending(s, ps, k + 1, pivot, l)
    {
      if HasSide(s.literals, gate, c, l, pivot, s.vals) {
        var r :| r in gate && r != c && SideClause(s.literals, r, pivot, Neg(l), s.vals);
        assert r in now;
      } else {
        var i :| k <= i < |ps| && Witness(ps[i], s.literals, s.garbage, s.vals, pivot, Neg(l));
        if i == k {
          WitnessOther(s.literals[d], pivot, x, Neg(l), s.vals, d, s);
          assert d in now;
        }
      }
    }
  }

  lemma SideIsBinary(literals: map<nat, Clause>, d: nat, p: Lit, x: Lit, vals: map<int, bool>)
    requires d in literals && BinaryIn(literals[d], p, x, vals)
    ensures SideClause(literals, d, p, x, vals)
  {
  }

  lemma WitnessOther(c: Clause, pivot: Lit, x: Lit, y: Lit, vals: map<int, bool>, r: nat, s: State)
    requires BinaryIn(c, pivot, x, vals) && Witness(r, s.literals, s.garbage, s.vals, pivot, y) && s.vals == vals
    requires r in s.literals && s.literals[r] == c
    ensures x == y
  {
    assert x in Actual(c, vals);
    assert Val(x, vals) == 0;
  }

  /** What `second_literal_in_binary_clause` tells about side clauses. */
  lemma NoSide(s: State, d: nat, base: set<Lit>, pivot: Lit, other: Option<Lit>)
    requires d in s.literals && Val(pivot, s.vals) == 0 && forall l :: l in base ==> Val(l, s.vals) == 0
    requires d !in s.garbage ==> forall x: Lit :: BinaryIn(s.literals[d], pivot, x, s.vals) ==> other == Some(x)
    requires other.Some? ==> Neg(other.value) !in base
    ensures forall l :: l in base ==> !Witness(d, s.literals, s.garbage, s.vals, pivot, Neg(l))
  {
    hide BinaryIn, Witness;
    forall l | l in base
      ensures !Witness(d, s.literals, s.garbage, s.vals, pivot, Neg(l))
    {
      assert Val(Neg(l), s.vals) == 0 && Neg(Neg(l)) == l;
      if Witness(d, s.literals, s.garbage, s.vals, pivot, Neg(l)) {
        WitnessLive(d, s.literals, s.garbage, s.vals, pivot, Neg(l));
      }
    }
  }

  /** The binary side clauses join the base clause. */
  method CollectSides(e: Eliminator, c: nat, pivot: Lit, ps: seq<nat>, ghost p: Lit)
    requires e.Valid() && c in e.literals && c !in e.garbage && !HasTrue(e.literals[c], e.vals)
    requires Val(pivot, e.vals) == 0
    requires NoDuplicates(ps)
    requires forall d :: d in ps ==> d in e.literals && pivot in e.literals[d] && Neg(pivot) !in e.literals[d]
    requires pivot !in e.literals[c] && e.gate == {c} && e.gates == [c]
    requires forall x: Lit :: Marked(e.marks, x) == 2 <==> Neg(x) in Base(e.literals[c], pivot, e.vals)
    requires Sides(e.S(), {c}, c, ps, 0, Base(e.literals[c], pivot, e.vals), pivot)
    modifies e`garbage, e`gate, e`gates
    ensures e.Valid() && Moves(old(e.S()), e.S(), p) && c !in e.garbage
    ensures e.gate == RefSet(e.gates) && Sides(e.S(), e.gate, c, ps, |ps|, Base(e.literals[c], pivot, e.vals), pivot)
    ensures e.gates != []
  {
    hide Moves, Connected, NewGarbage, BinaryIn, HasTrue, Sides, Base, Marked, Witness, RefSet;
    ghost var s0, base := e.S(), Base(e.literals[c], pivot, e.vals);
    MovesNot(s0, p);
    OneRef(c);
    BaseUnassigned(e.literals[c], pivot, e.vals);
    for k := 0 to |ps|
      invariant e.Valid() && Moves(s0, e.S(), p) && c !in e.garbage && e.gates != [] && e.gate == RefSet(e.gates)
      invariant Sides(e.S(), e.gate, c, ps, k, base, pivot)
    {
      var d := ps[k];
      ghost var s1 := e.S();
      if d in e.garbage {
        NoSide(e.S(), d, base, pivot, None);
        SkipSide(e.S(), e.gate, c, ps, k, base, pivot);
        continue;
      }
      assert d in ps;
      var other := SecondLiteral(e, d, pivot, p);
      MovesTrans(s0, s1, e.S(), p);
      MovesKeeps(s1, e.S(), p);
      SidesMoved(s1, e.S(), e.gate, c, ps, k, base, pivot, p);
      NotDropped(s1.garbage, e.garbage, e.literals, e.vals, c);
      if other == None {
        NoSide(e.S(), d, base, pivot, other);
        SkipSide(e.S(), e.gate, c, ps, k, base, pivot);
        continue;
      }
      var tmp := Marked(e.marks, other.value);
      if tmp != 2 {
        NoSide(e.S(), d, base, pivot, other);
        SkipSide(e.S(), e.gate, c, ps, k, base, pivot);
        continue;
      }
      AddSide(e.S(), e.gate, c, ps, k, base, pivot, other.value);
      MoreRefs(e.gates, d);
      e.gate, e.gates := e.gate + {d}, e.gates + [d];
    }
  }

  lemma OneRef(c: nat)
    ensures RefSet([c]) == {c}
  {
  }

  lemma MoreRefs(gates: seq<nat>, d: nat)
    ensures RefSet(gates + [d]) == RefSet(gates) + {d}
  {
    forall r
      ensures r in RefSet(gates + [d]) <==> r in RefSet(gates) + {d}
    {
    }
  }

  lemma BaseUnassigned(c: Clause, pivot: Lit, vals: map<int, bool>)
    ensures forall l :: l in Base(c, pivot, vals) ==> Val(l, vals) == 0
  {
  }

  lemma NotDropped(garbage0: set<nat>, garbage: set<nat>, literals: map<nat, Clause>, vals: map<int, bool>, c: nat)
    requires NewGarbage(garbage0, garbage, literals, vals) && c in literals && c !in garbage0
    requires !HasTrue(literals[c], vals)
    ensures c !in garbage
  {
  }

  /** All side clauses have been found: they are a gate with the base clause. */
  lemma AndFound(s: State, gate: set<nat>, c: nat, ps: seq<nat>, pivot: Lit, p: Lit)
    requires c in s.literals && Sides(s, gate, c, ps, |ps|, Base(s.literals[c], pivot, s.vals), pivot)
    requires (p == pivot || p == Neg(pivot))
    requires c !in s.garbage && Val(pivot, s.vals) == 0 && Neg(pivot) in s.literals[c] && pivot !in s.literals[c]
    requires !HasTrue(s.literals[c], s.vals)
    ensures GateOver(s.literals, gate, p, s.vals) && Val(p, s.vals) == 0
    ensures forall r :: r in gate ==>
      r in s.literals && r !in s.garbage && (p in s.literals[r] || Neg(p) in s.literals[r])
  {
    hide SideOfSome, HasSide, GateOver, HasTrue;
    forall l | l in Actual(s.literals[c], s.vals) && l != Neg(pivot)
      ensures HasSide(s.literals, gate, c, l, pivot, s.vals)
    {
      assert l in Base(s.literals[c], pivot, s.vals);
    }
    AndGate(s.literals, gate, c, pivot, s.vals);
    OtherSign(s.literals, gate, pivot, s.vals);
    assert Neg(Neg(pivot)) == pivot;
    forall r | r in gate
      ensures r in s.literals && r !in s.garbage && (p in s.literals[r] || Neg(p) in s.literals[r])
    {
      if r != c {
        SideNotTrue(s.literals, r, Base(s.literals[c], pivot, s.vals), pivot, s.vals);
      }
    }
  }

  lemma OtherSign(literals: map<nat, Clause>, gate: set<nat>, p: Lit, vals: map<int, bool>)
    requires GateOver(literals, gate, p, vals)
    ensures GateOver(literals, gate, Neg(p), vals)
  {
    assert Neg(Neg(p)) == p;
    forall m: Model | Agrees(m, vals)
      ensures ForcesOne(literals, gate, Neg(p), m)
    {
      assert ForcesOne(literals, gate, p, m);
    }
  }

  ghost predicate HasBinary(s: State, ps: seq<nat>, p: Lit, x: Lit) {
    exists j :: 0 <= j < |ps| && LiveBinary(s, ps[j], p, x)
  }

  /** A long clause with the negated pivot, and a binary clause with the pivot for
      the negation of each of its other literals. */
  ghost predicate AndAt(s: State, c: nat, ps: seq<nat>, p: Lit) {
    && c in s.literals && c !in s.garbage && |s.literals[c]| >= 3 && !HasTrue(s.literals[c], s.vals)
    && forall l :: l in Base(s.literals[c], p, s.vals) ==> HasBinary(s, ps, p, Neg(l))
  }

  ghost predicate HasAnd(s: State, ns: seq<nat>, ps: seq<nat>, p: Lit) {
    exists k :: 0 <= k < |ns| && AndAt(s, ns[k], ps, p)
  }

  ghost predicate NoAnd(s: State, ns: seq<nat>, ps: seq<nat>, k: nat, p: Lit)
    requires k <= |ns|
  {
    forall i :: 0 <= i < k ==> !AndAt(s, ns[i], ps, p)
  }

  lemma NoAndYet(s: State, ns: seq<nat>, ps: seq<nat>, p: Lit)
    ensures NoAnd(s, ns, ps, 0, p)
  {
  }

  lemma AndEarlier(s: State, t: State, c: nat, ps: seq<nat>, p: Lit)
    requires t.literals == s.literals && t.vals == s.vals && s.garbage <= t.garbage && AndAt(t, c, ps, p)
    ensures AndAt(s, c, ps, p)
  {
    hide BinaryIn, HasTrue, Base;
    forall l | l in Base(s.literals[c], p, s.vals)
      ensures HasBinary(s, ps, p, Neg(l))
    {
      var j :| 0 <= j < |ps| && LiveBinary(t, ps[j], p, Neg(l));
      assert LiveBinary(s, ps[j], p, Neg(l));
    }
  }

  lemma NoAndStep(s: State, t: State, ns: seq<nat>, ps: seq<nat>, k: nat, p: Lit)
    requires k < |ns| && NoAnd(s, ns, ps, k, p) && !AndAt(t, ns[k], ps, p)
    requires t.literals == s.literals && t.vals == s.vals && s.garbage <= t.garbage
    ensures NoAnd(t, ns, ps, k + 1, p)
  {
    hide AndAt;
    forall i | 0 <= i < k + 1
      ensures !AndAt(t, ns[i], ps, p)
    {
      if i < k && AndAt(t, ns[i], ps, p) {
        AndEarlier(s, t, ns[i], ps, p);
      }
    }
  }

  lemma NoBase(s: State, marks: map<int, int>, c: nat, ps: seq<nat>, p: Lit)
    requires c in s.literals && MarksAll(s, marks, ps, |ps|, p)
    requires exists l :: l in Base(s.literals[c], p, s.vals) && Marked(marks, l) >= 0
    ensures !AndAt(s, c, ps, p)
  {
    hide BinaryIn, HasTrue, Base, Marked, LiveBinary;
    var l :| l in Base(s.literals[c], p, s.vals) && Marked(marks, l) >= 0;
    OppositeMarks(marks, l);
    forall j | 0 <= j < |ps|
      ensures !LiveBinary(s, ps[j], p, Neg(l))
    {
    }
    assert !HasBinary(s, ps, p, Neg(l));
  }

  lemma AndTaken(e: Eliminator, ns: seq<nat>, c: nat, p: Lit)
    requires e.Valid() && p in e.occs && c in ns && c in e.literals && c !in e.garbage && |e.literals[c]| >= 3
    requires !HasTrue(e.literals[c], e.vals)
    requires Sides(e.S(), e.gate, c, e.occs[p], |e.occs[p]|, Base(e.literals[c], p, e.vals), p)
    ensures HasAnd(e.S(), ns, e.occs[p], p)
  {
    hide Connected, HasTrue, SideOfSome, SideClause;
    var s, ps := e.S(), e.occs[p];
    LiveIsListed(e, p);
    forall l | l in Base(s.literals[c], p, s.vals)
      ensures HasBinary(s, ps, p, Neg(l))
    {
      var d :| d in e.gate && d != c && SideClause(s.literals, d, p, Neg(l), s.vals);
      SideIsListed(s, d, ps, p, l);
    }
    var k :| 0 <= k < |ns| && ns[k] == c;
    assert AndAt(s, ns[k], ps, p);
  }

  lemma LiveIsListed(e: Eliminator, p: Lit)
    requires e.Valid() && p in e.occs
    ensures forall d :: d in e.literals && d !in e.garbage && p in e.literals[d] ==> d in e.occs[p]
  {
  }

  lemma SideIsListed(s: State, d: nat, ps: seq<nat>, p: Lit, l: Lit)
    requires SideClause(s.literals, d, p, Neg(l), s.vals) && d !in s.garbage && l != Neg(p)
    requires p in s.literals[d] ==> d in ps
    ensures HasBinary(s, ps, p, Neg(l))
  {
    assert Neg(Neg(p)) == p && Neg(Neg(l)) == l && p in Actual(s.literals[d], s.vals);
    var j :| 0 <= j < |ps| && ps[j] == d;
    assert LiveBinary(s, ps[j], p, Neg(l));
  }

  /** `find_and_gate`. */
  method FindAndGate(e: Eliminator, pivot: Lit, ghost p: Lit)
    requires Ready(e, pivot) && !e.unsat && Val(pivot, e.vals) == 0 && (p == pivot || p == Neg(pivot))
    modifies e`garbage, e`vals, e`unsat, e`marks, e`markedStack, e`gate, e`gates
    ensures e.Valid() && Searched(old(e.S()), e.S(), p) && e.marks == map[] && e.markedStack == []
    ensures Found(e, p) && (e.gates != [] ==> GateOver(e.literals, e.gate, p, e.vals))
    ensures !e.unsat && e.vals == old(e.vals) ==>
      (e.gates != [] <==> HasAnd(e.S(), e.occs[Neg(pivot)], e.occs[pivot], pivot))
  {
    hide Keeps, Moves, Connected, NewGarbage, MarksOk, Implied, Searched, F, BinaryIn, Witness, Clean, OnStack,
         GateOver, NoneSatisfied, RefSet, Base, HasTrue, Sides, Signs, MarksAll, NoAnd, AndAt, Marked, Val, Found;
    ghost var s0 := e.S();
    MarkBinaryLiterals(e, pivot, p);
    if !e.unsat && Val(pivot, e.vals) == 0 {
      var ns, ps := e.occs[Neg(pivot)], e.occs[pivot];
      ListedOnce(e.literals, e.garbage, e.occs, e.vars, e.next, Neg(pivot));
      NoAndYet(e.S(), ns, ps, pivot);
      for k := 0 to |ns|
        invariant e.Valid() && Searched(s0, e.S(), p) && e.literals == s0.literals && !e.unsat
        invariant Val(pivot, e.vals) == 0 && e.vals == s0.vals
        invariant MarksAll(e.S(), e.marks, ps, |ps|, pivot) && NoAnd(e.S(), ns, ps, k, pivot)
        invariant e.gates == [] && e.gate == {} && OnStack(e.marks, e.markedStack)
        invariant MarksOk(e.marks, e.markedStack, e.literals, e.garbage, e.vals, ps, |ps|, pivot)
      {
        var c := ns[k];
        ghost var s1 := e.S();
        if c in e.garbage {
          NoAndHere(s1, c, ps, pivot);
          NoAndStep(s1, s1, ns, ps, k, pivot);
          continue;
        }
        if |e.literals[c]| < 3 {
          NoAndHere(s1, c, ps, pivot);
          NoAndStep(s1, s1, ns, ps, k, pivot);
          continue;
        }
        var allMarked, satisfied := ScanBase(e, e.literals[c], pivot);
        if !allMarked {
          NoBase(s1, e.marks, c, ps, pivot);
          NoAndStep(s1, s1, ns, ps, k, pivot);
          continue;
        }
        if satisfied.Some? {
          e.MarkSatisfied(c, satisfied.value, p);
          SearchStep(s0, s1, e.S(), p);
          OneNewGarbage(s1.garbage, c, satisfied.value, e.literals, e.vals);
          MarksKept(e.marks, e.markedStack, s1, e.S(), ps, |ps|, pivot, p);
          AllMarkedLater(s1, e.S(), e.marks, ps, pivot);
          NoAndHere(e.S(), c, ps, pivot);
          NoAndStep(s1, e.S(), ns, ps, k, pivot);
          continue;
        }
        TakeAndGate(e, c, pivot, ps, ns, p);
        SearchStep(s0, s1, e.S(), p);
        break;
      }
      if e.gates == [] {
        NoAndAtAll(e.S(), ns, ps, pivot);
      }
    }
    UnmarkBinaryLiterals(e);
    if e.gates == [] {
      NoneFound(e, p);
    }
  }

  lemma NoAndHere(s: State, c: nat, ps: seq<nat>, p: Lit)
    requires c in s.literals ==> c in s.garbage || |s.literals[c]| < 3
    ensures !AndAt(s, c, ps, p)
  {
  }

  lemma NoAndAtAll(s: State, ns: seq<nat>, ps: seq<nat>, p: Lit)
    requires NoAnd(s, ns, ps, |ns|, p)
    ensures !HasAnd(s, ns, ps, p)
  {
    hide AndAt;
  }

  /** The AND gate with base clause `c`. */
  method TakeAndGate(e: Eliminator, c: nat, pivot: Lit, ps: seq<nat>, ghost ns: seq<nat>, ghost p: Lit)
    requires e.Valid() && !e.unsat && Val(pivot, e.vals) == 0 && (p == pivot || p == Neg(pivot))
    requires pivot in e.occs && ps == e.occs[pivot] && c in e.literals && c !in e.garbage && Neg(pivot) in e.literals[c]
    requires pivot !in e.literals[c] && c in ns && |e.literals[c]| >= 3
    requires MarksOk(e.marks, e.markedStack, e.literals, e.garbage, e.vals, ps, |ps|, pivot)
    requires OnStack(e.marks, e.markedStack)
    requires !HasTrue(e.literals[c], e.vals)
    requires forall l :: l in Base(e.literals[c], pivot, e.vals) ==> Marked(e.marks, l) < 0
    modifies e`garbage, e`marks, e`gate, e`gates
    ensures e.Valid() && Moves(old(e.S()), e.S(), p) && Found(e, p) && OnStack(e.marks, e.markedStack)
    ensures e.gates != [] && GateOver(e.literals, e.gate, p, e.vals) && HasAnd(e.S(), ns, ps, pivot)
  {
    hide Moves, Connected, MarksOk, OnStack, GateOver, NoneSatisfied, RefSet, Base, HasTrue, Sides, Marked, HasAnd;
    ListedOnce(e.literals, e.garbage, e.occs, e.vars, e.next, pivot);
    ClauseFacts(e.literals, e.garbage, e.occs, e.vars, e.next, c);
    StartSides(e.S(), c, ps, Base(e.literals[c], pivot, e.vals), pivot, e.marks, e.markedStack);
    MarksAreSigns(e.marks, e.markedStack, e.S(), ps, pivot);
    e.gate, e.gates := {c}, [c];
    DoubleMarks(e, e.literals[c], pivot);
    CollectSides(e, c, pivot, ps, p);
    AndFound(e.S(), e.gate, c, ps, pivot, p);
    AndTaken(e, ns, c, pivot);
  }

  lemma MarksAreSigns(marks: map<int, int>, stack: seq<Lit>, s: State, ps: seq<nat>, pivot: Lit)
    requires MarksOk(marks, stack, s.literals, s.garbage, s.vals, ps, |ps|, pivot)
    ensures Signs(marks)
  {
  }
}

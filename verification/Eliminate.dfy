/** Eliminating one variable: resolvents are added, the clauses with the variable
    dropped, and those needed for reconstruction pushed on the extension stack. */
module Eliminate {
  import opened Logic
  import opened Reconstruction
  import opened Clauses
  import opened Elimination
  import opened Elim

  /** The resolvent of two clauses holds without the pivot. */
  ghost predicate PairResolved(s: State, c: nat, d: nat, p: Lit) {
    c in s.literals && d in s.literals ==> ResolventHolds(Without(F(s), p), s.literals[c], s.literals[d], p)
  }

  lemma PairKept(s: State, t: State, c: nat, d: nat, p: Lit)
    requires Moves(s, t, p) && Val(p, t.vals) == 0 && PairResolved(s, c, d, p) && c in s.literals && d in s.literals
    ensures PairResolved(t, c, d, p)
  {
    ImpliedLater(F(s), F(t), p, Rest(Lits(s.literals[c]), p) + Rest(Lits(s.literals[d]), Neg(p)));
  }

  /** A clause that has been dropped needs no resolvents. */
  lemma DroppedResolved(s: State, t: State, c: nat, d: nat, p: Lit)
    requires Moves(s, t, p) && Val(p, t.vals) == 0 && c in s.literals && d in s.literals
    requires Neg(p) !in s.literals[c] && p !in s.literals[d]
    requires (c !in s.garbage && c in t.garbage) || (d !in s.garbage && d in t.garbage)
    ensures PairResolved(t, c, d, p)
  {
    var e, f := Lits(s.literals[c]), Lits(s.literals[d]);
    var r := Rest(e, p) + Rest(f, Neg(p));
    forall m: Model | Models(m, Without(F(t), p))
      ensures SatLits(r, m)
    {
      if c !in s.garbage && c in t.garbage {
        assert Implied(Without(F(t), p), e - {p, Neg(p)});
        var l :| l in e - {p, Neg(p)} && True(l, m);
        assert l in r;
      } else {
        assert Implied(Without(F(t), p), f - {p, Neg(p)});
        var l :| l in f - {p, Neg(p)} && True(l, m);
        assert l in r;
      }
    }
  }

  lemma AddedResolved(s: State, r: nat, clause: seq<Lit>, c: nat, d: nat, p: Lit, vals: map<int, bool>)
    requires r in s.literals && r !in s.garbage && s.literals[r] == clause && c in s.literals && d in s.literals
    requires p !in clause && Neg(p) !in clause
    requires Lits(clause) == (Actual(s.literals[c], vals) + Actual(s.literals[d], vals)) - {p, Neg(p)}
    ensures PairResolved(s, c, d, p)
  {
    var e := Rest(Lits(s.literals[c]), p) + Rest(Lits(s.literals[d]), Neg(p));
    assert Lits(clause) in F(s) && Lits(clause) in Without(F(s), p);
    assert Lits(clause) <= e;
    forall m: Model | Models(m, Without(F(s), p))
      ensures SatLits(e, m)
    {
      var l :| l in Lits(clause) && True(l, m);
      assert l in e;
    }
  }

  /** The clauses listed for the pivot contain it once. */
  ghost predicate Sides(literals: map<nat, Clause>, ps: seq<nat>, p: Lit) {
    forall i :: 0 <= i < |ps| ==> ps[i] in literals && p in literals[ps[i]] && Neg(p) !in literals[ps[i]]
  }

  lemma SidesOf(literals: map<nat, Clause>, garbage: set<nat>, occs: map<Lit, seq<nat>>, vars: set<int>, next: nat,
        p: Lit)
    requires Connected(literals, garbage, occs, vars, next) && p in occs
    ensures Sides(literals, occs[p], p)
  {
    forall i | 0 <= i < |occs[p]|
      ensures occs[p][i] in literals && p in literals[occs[p][i]] && Neg(p) !in literals[occs[p][i]]
    {
      assert occs[p][i] in occs[p];
      assert p in Lits(literals[occs[p][i]]);
    }
  }

  /** Which pairs of clauses are resolved: all, or one gate and one other clause. */
  predicate Pairs(gate: set<nat>, substitute: bool, c: nat, d: nat) {
    !substitute || (c in gate) != (d in gate)
  }

  /** Every new clause comes from two clauses, one of each list, that are resolved:
      it consists of their literals except for those of the pivot. */
  ghost predicate FromPairs(s0: State, s: State, gate: set<nat>, substitute: bool, ps: seq<nat>, ns: seq<nat>, p: Lit) {
    forall r :: r in s.literals && r !in s0.literals ==> ComesFrom(s.literals[r], s0, gate, substitute, ps, ns, p)
  }

  ghost predicate ComesFrom(x: Clause, s0: State, gate: set<nat>, substitute: bool, ps: seq<nat>, ns: seq<nat>,
        p: Lit) {
    exists c, d :: c in ps && d in ns && FromPair(x, s0, gate, substitute, c, d, p)
  }

  ghost predicate FromPair(x: Clause, s0: State, gate: set<nat>, substitute: bool, c: nat, d: nat, p: Lit) {
    && c in s0.literals && d in s0.literals && Pairs(gate, substitute, c, d)
    && Lits(x) <= (Lits(s0.literals[c]) + Lits(s0.literals[d])) - {p, Neg(p)}
  }

  lemma NothingFromPairs(s: State, gate: set<nat>, substitute: bool, ps: seq<nat>, ns: seq<nat>, p: Lit)
    ensures FromPairs(s, s, gate, substitute, ps, ns, p)
  {
  }

  lemma MoreFromPairs(s0: State, s1: State, s: State, gate: set<nat>, substitute: bool, ps: seq<nat>, ns: seq<nat>,
        ps1: seq<nat>, ns1: seq<nat>, p: Lit)
    requires FromPairs(s0, s1, gate, substitute, ps, ns, p) && FromPairs(s1, s, gate, substitute, ps1, ns1, p)
    requires (forall c :: c in ps1 ==> c in ps) && forall d :: d in ns1 ==> d in ns
    requires forall r :: r in ps || r in ns ==> r in s0.literals
    requires forall r :: r in s0.literals ==> r in s1.literals && s1.literals[r] == s0.literals[r]
    requires forall r :: r in s1.literals ==> r in s.literals && s.literals[r] == s1.literals[r]
    ensures FromPairs(s0, s, gate, substitute, ps, ns, p)
  {
    hide Pairs;
    forall r | r in s.literals && r !in s0.literals
      ensures ComesFrom(s.literals[r], s0, gate, substitute, ps, ns, p)
    {
      if r !in s1.literals {
        var c, d :| c in ps1 && d in ns1 && FromPair(s.literals[r], s1, gate, substitute, c, d, p);
        assert FromPair(s.literals[r], s0, gate, substitute, c, d, p);
      }
    }
  }

  /** What resolving two clauses creates consists of their literals. */
  lemma OutcomeFromPair(s0: State, s: State, c: nat, d: nat, pivot: Lit, p: Lit, eagerly: bool, needed: bool,
        gate: set<nat>, substitute: bool, a: nat, b: nat)
    requires c in s0.literals && d in s0.literals && Outcome(s0, s, c, d, pivot, eagerly, needed) && !eagerly
    requires pivot == p || pivot == Neg(p)
    requires (a == c && b == d) || (a == d && b == c)
    requires Pairs(gate, substitute, a, b)
    ensures FromPairs(s0, s, gate, substitute, [a], [b], p)
  {
    hide HasTrue, Clash, Pairs;
    assert Neg(Neg(p)) == p;
    forall r | r in s.literals && r !in s0.literals
      ensures ComesFrom(s.literals[r], s0, gate, substitute, [a], [b], p)
    {
      NewIsResolvent(s0, s, c, d, pivot, eagerly, needed, r);
      assert FromPair(s.literals[r], s0, gate, substitute, a, b, p);
    }
  }

  lemma NewIsResolvent(s0: State, s: State, c: nat, d: nat, pivot: Lit, eagerly: bool, needed: bool, r: nat)
    requires c in s0.literals && d in s0.literals && Outcome(s0, s, c, d, pivot, eagerly, needed) && !eagerly
    requires r in s.literals && r !in s0.literals
    ensures Lits(s.literals[r]) <= (Lits(s0.literals[c]) + Lits(s0.literals[d])) - {pivot, Neg(pivot)}
  {
    hide HasTrue, Clash;
    var res := (Actual(s0.literals[c], s0.vals) + Actual(s0.literals[d], s0.vals)) - {pivot, Neg(pivot)};
    if x :| NewClauseIs(s0, s, x, res) {
      assert r == x;
    }
  }

  ghost predicate RowResolved(s: State, gate: set<nat>, substitute: bool, garbage0: set<nat>, c: nat, ns: seq<nat>,
        k: nat, p: Lit)
    requires k <= |ns|
  {
    c !in garbage0 ==>
      forall j :: 0 <= j < k && ns[j] !in garbage0 && Pairs(gate, substitute, c, ns[j]) ==> PairResolved(s, c, ns[j], p)
  }

  /** All pairs of clauses that have to be resolved have been. */
  ghost predicate RowsResolved(s: State, gate: set<nat>, substitute: bool, garbage0: set<nat>, ps: seq<nat>,
        ns: seq<nat>, k: nat, p: Lit)
    requires k <= |ps|
  {
    forall i :: 0 <= i < k ==> RowResolved(s, gate, substitute, garbage0, ps[i], ns, |ns|, p)
  }

  lemma RowKept(s: State, t: State, gate: set<nat>, substitute: bool, garbage0: set<nat>, c: nat, ns: seq<nat>, k: nat,
        p: Lit)
    requires Moves(s, t, p) && Val(p, t.vals) == 0 && k <= |ns|
    requires RowResolved(s, gate, substitute, garbage0, c, ns, k, p)
    requires c in s.literals && Sides(s.literals, ns, Neg(p))
    ensures RowResolved(t, gate, substitute, garbage0, c, ns, k, p)
  {
    if c !in garbage0 {
      forall j | 0 <= j < k && ns[j] !in garbage0 && Pairs(gate, substitute, c, ns[j])
        ensures PairResolved(t, c, ns[j], p)
      {
        PairKept(s, t, c, ns[j], p);
      }
    }
  }

  lemma RowsKept(s: State, t: State, gate: set<nat>, substitute: bool, garbage0: set<nat>, ps: seq<nat>, ns: seq<nat>,
        k: nat, p: Lit)
    requires Moves(s, t, p) && Val(p, t.vals) == 0 && k <= |ps|
    requires RowsResolved(s, gate, substitute, garbage0, ps, ns, k, p)
    requires Sides(s.literals, ps, p) && Sides(s.literals, ns, Neg(p))
    ensures RowsResolved(t, gate, substitute, garbage0, ps, ns, k, p)
  {
    forall i | 0 <= i < k
      ensures RowResolved(t, gate, substitute, garbage0, ps[i], ns, |ns|, p)
    {
      RowKept(s, t, gate, substitute, garbage0, ps[i], ns, |ns|, p);
    }
  }

  /** `elim_add_resolvents`. */
  method AddResolvents(e: Eliminator, pivot: Lit)
    requires e.Valid() && Val(pivot, e.vals) == 0 && e.clause == [] && pivot in e.occs && Neg(pivot) in e.occs
    modifies e`literals, e`garbage, e`occs, e`vals, e`unsat, e`next, e`clause
    ensures e.Valid() && e.clause == [] && Moves(old(e.S()), e.S(), pivot) && SameLists(e.occs, old(e.occs), pivot)
    ensures Val(pivot, e.vals) == 0
    ensures FromPairs(old(e.S()), e.S(), e.gate, e.gates != [], old(e.occs)[pivot], old(e.occs)[Neg(pivot)], pivot)
    ensures !e.unsat ==>
      RowsResolved(e.S(), e.gate, e.gates != [], old(e.garbage), old(e.occs)[pivot], old(e.occs)[Neg(pivot)],
        |old(e.occs)[pivot]|, pivot)
  {
    hide Connected, Moves, Val, RowsResolved, SameLists, Sides, FromPairs;
    var substitute := e.gates != [];
    var ps, ns := e.occs[pivot], e.occs[Neg(pivot)];
    ghost var s0, occs0 := e.S(), e.occs;
    MovesNot(s0, pivot);
    ListsUnchanged(e.occs, pivot);
    SidesOf(e.literals, e.garbage, e.occs, e.vars, e.next, pivot);
    SidesOf(e.literals, e.garbage, e.occs, e.vars, e.next, Neg(pivot));
    NoRows(e.S(), e.gate, substitute, s0.garbage, ps, ns, pivot);
    NothingFromPairs(s0, e.gate, substitute, ps, ns, pivot);
    SideClauses(s0.literals, ps, pivot);
    SideClauses(s0.literals, ns, Neg(pivot));
    for i := 0 to |ps|
      invariant e.Valid() && e.clause == [] && Moves(s0, e.S(), pivot) && SameLists(e.occs, occs0, pivot)
      invariant Val(pivot, e.vals) == 0
      invariant Sides(s0.literals, ps, pivot) && Sides(s0.literals, ns, Neg(pivot))
      invariant Sides(e.literals, ps, pivot) && Sides(e.literals, ns, Neg(pivot))
      invariant RowsResolved(e.S(), e.gate, substitute, s0.garbage, ps, ns, i, pivot)
      invariant FromPairs(s0, e.S(), e.gate, substitute, ps, ns, pivot)
    {
      if e.unsat {
        break;
      }
      ghost var s1, occs1 := e.S(), e.occs;
      MovesFacts(s0, s1, pivot);
      SideAt(s0.literals, ps, pivot, i);
      ResolveRow(e, pivot, ps[i], ns, substitute, s0);
      MovesTrans(s0, s1, e.S(), pivot);
      ListsTrans(e.occs, occs1, occs0, pivot);
      RowsKept(s1, e.S(), e.gate, substitute, s0.garbage, ps, ns, i, pivot);
      MovesFacts(s1, e.S(), pivot);
      MoreFromPairs(s0, s1, e.S(), e.gate, substitute, ps, ns, [ps[i]], ns, pivot);
      SidesKept(s1, e.S(), ps, pivot, pivot);
      SidesKept(s1, e.S(), ns, Neg(pivot), pivot);
      if !e.unsat {
        MoreRows(e.S(), e.gate, substitute, s0.garbage, ps, ns, i, pivot);
      } else {
        break;
      }
    }
  }

  /** Resolve one positive clause with the negative ones. */
  method ResolveRow(e: Eliminator, pivot: Lit, c: nat, ns: seq<nat>, substitute: bool, ghost s0: State)
    requires e.Valid() && e.clause == [] && Val(pivot, e.vals) == 0 && Moves(s0, e.S(), pivot)
    requires c in s0.literals && pivot in s0.literals[c] && Neg(pivot) !in s0.literals[c]
    requires Sides(s0.literals, ns, Neg(pivot))
    modifies e`literals, e`garbage, e`occs, e`vals, e`unsat, e`next, e`clause
    ensures e.Valid() && e.clause == [] && Val(pivot, e.vals) == 0
    ensures Moves(old(e.S()), e.S(), pivot) && Moves(s0, e.S(), pivot) && SameLists(e.occs, old(e.occs), pivot)
    ensures !e.unsat ==> RowResolved(e.S(), e.gate, substitute, s0.garbage, c, ns, |ns|, pivot)
    ensures FromPairs(old(e.S()), e.S(), e.gate, substitute, [c], ns, pivot)
  {
    hide Connected, Moves, Val, RowResolved, SameLists, Sides, PairResolved, Pairs, FromPairs;
    ghost var s1, occs1 := e.S(), e.occs;
    MovesNot(s1, pivot);
    MovesFacts(s0, s1, pivot);
    ListsUnchanged(e.occs, pivot);
    NoPairs(e.S(), e.gate, substitute, s0.garbage, c, ns, pivot);
    NothingFromPairs(s1, e.gate, substitute, [c], ns, pivot);
    SideClauses(s0.literals, ns, Neg(pivot));
    for k := 0 to |ns|
      invariant e.Valid() && e.clause == [] && Val(pivot, e.vals) == 0 && SameLists(e.occs, occs1, pivot)
      invariant Moves(s1, e.S(), pivot) && Moves(s0, e.S(), pivot)
      invariant RowResolved(e.S(), e.gate, substitute, s0.garbage, c, ns, k, pivot)
      invariant FromPairs(s1, e.S(), e.gate, substitute, [c], ns, pivot)
    {
      if e.unsat {
        break;
      }
      ghost var s2, occs2 := e.S(), e.occs;
      MovesFacts(s0, s2, pivot);
      SideAt(s0.literals, ns, Neg(pivot), k);
      assert Neg(Neg(pivot)) == pivot;
      ResolvePair(e, pivot, c, ns[k], substitute, s0);
      MovesTrans(s1, s2, e.S(), pivot);
      MovesTrans(s0, s2, e.S(), pivot);
      ListsTrans(e.occs, occs2, occs1, pivot);
      SidesKept(s0, s2, ns, Neg(pivot), pivot);
      RowKept(s2, e.S(), e.gate, substitute, s0.garbage, c, ns, k, pivot);
      MovesFacts(s1, s2, pivot);
      MovesFacts(s2, e.S(), pivot);
      MoreFromPairs(s1, s2, e.S(), e.gate, substitute, [c], ns, [c], [ns[k]], pivot);
      MorePairs(e.S(), e.gate, substitute, s0.garbage, c, ns, k, pivot);
    }
  }

  /** Resolve two clauses unless one has been dropped or both, or none of them,
      belong to the gate. */
  method ResolvePair(e: Eliminator, pivot: Lit, c: nat, d: nat, substitute: bool, ghost s0: State)
    requires e.Valid() && e.clause == [] && Val(pivot, e.vals) == 0 && Moves(s0, e.S(), pivot)
    requires c in s0.literals && pivot in s0.literals[c] && Neg(pivot) !in s0.literals[c]
    requires d in s0.literals && Neg(pivot) in s0.literals[d] && pivot !in s0.literals[d]
    modifies e`literals, e`garbage, e`occs, e`vals, e`unsat, e`next, e`clause
    ensures e.Valid() && e.clause == [] && Val(pivot, e.vals) == 0
    ensures Moves(old(e.S()), e.S(), pivot) && SameLists(e.occs, old(e.occs), pivot)
    ensures c !in s0.garbage && d !in s0.garbage && Pairs(e.gate, substitute, c, d) ==> PairResolved(e.S(), c, d, pivot)
    ensures FromPairs(old(e.S()), e.S(), e.gate, substitute, [c], [d], pivot)
  {
    hide Connected, Moves, Val, SameLists, Resolvent, ResolventHolds, F, Implied, FromPairs, Outcome;
    ghost var s1 := e.S();
    NothingFromPairs(s1, e.gate, substitute, [c], [d], pivot);
    MovesFacts(s0, s1, pivot);
    MovesNot(s1, pivot);
    ListsUnchanged(e.occs, pivot);
    if c in e.garbage || d in e.garbage {
      if c !in s0.garbage && d !in s0.garbage {
        DroppedResolved(s0, s1, c, d, pivot);
      }
      return;
    }
    if substitute && (c in e.gate) == (d in e.gate) {
      return;
    }
    var needed := e.Resolve(c, pivot, d, false);
    MovesFacts(s1, e.S(), pivot);
    if |s1.literals[c]| > |s1.literals[d]| {
      OutcomeFromPair(s1, e.S(), d, c, Neg(pivot), pivot, false, needed, e.gate, substitute, c, d);
    } else {
      OutcomeFromPair(s1, e.S(), c, d, pivot, pivot, false, needed, e.gate, substitute, c, d);
    }
    if needed {
      ghost var s2, occs2 := e.S(), e.occs;
      ResolventNew(e.clause, F(s2), s2.literals[c], s2.literals[d], pivot, s2.vals, e.vars);
      var r := e.NewClause(e.clause, pivot);
      MovesFacts(s2, e.S(), pivot);
      AddedResolved(e.S(), r, e.clause, c, d, pivot, s2.vals);
      AddedFromPair(s2, e.S(), r, e.clause, c, d, pivot, e.gate, substitute);
      MovesTrans(s1, s2, e.S(), pivot);
      ListsTrans(e.occs, occs2, old(e.occs), pivot);
      e.clause := [];
    }
  }

  lemma ResolventNew(clause: seq<Lit>, f: Formula, c: Clause, d: Clause, pivot: Lit, vals: map<int, bool>,
        vars: set<int>)
    requires Resolvent(clause, f, c, d, pivot, vals, vars)
    ensures NoDuplicates(clause) && Elim.Consistent(Lits(clause)) && (forall l :: l in clause ==> Var(l) in vars)
    ensures pivot !in clause && Neg(pivot) !in clause && Implied(f, Lits(clause))
    ensures Lits(clause) == (Actual(c, vals) + Actual(d, vals)) - {pivot, Neg(pivot)}
  {
  }

  lemma AddedFromPair(s0: State, s: State, r: nat, clause: Clause, c: nat, d: nat, p: Lit, gate: set<nat>,
        substitute: bool)
    requires c in s0.literals && d in s0.literals && Pairs(gate, substitute, c, d)
    requires r !in s0.literals && s.literals == s0.literals[r := clause]
    requires Lits(clause) == (Actual(s0.literals[c], s0.vals) + Actual(s0.literals[d], s0.vals)) - {p, Neg(p)}
    ensures FromPairs(s0, s, gate, substitute, [c], [d], p)
  {
    hide Pairs;
    assert FromPair(clause, s0, gate, substitute, c, d, p);
    assert ComesFrom(s.literals[r], s0, gate, substitute, [c], [d], p);
  }

  lemma SideClauses(literals: map<nat, Clause>, ps: seq<nat>, p: Lit)
    requires Sides(literals, ps, p)
    ensures forall r :: r in ps ==> r in literals
  {
  }

  lemma SideAt(literals: map<nat, Clause>, ps: seq<nat>, p: Lit, i: nat)
    requires Sides(literals, ps, p) && i < |ps|
    ensures ps[i] in literals && p in literals[ps[i]] && Neg(p) !in literals[ps[i]]
  {
  }

  lemma NoPairs(s: State, gate: set<nat>, substitute: bool, garbage0: set<nat>, c: nat, ns: seq<nat>, p: Lit)
    ensures RowResolved(s, gate, substitute, garbage0, c, ns, 0, p)
  {
  }

  lemma MorePairs(s: State, gate: set<nat>, substitute: bool, garbage0: set<nat>, c: nat, ns: seq<nat>, k: nat, p: Lit)
    requires k < |ns| && RowResolved(s, gate, substitute, garbage0, c, ns, k, p)
    requires c !in garbage0 && ns[k] !in garbage0 && Pairs(gate, substitute, c, ns[k]) ==> PairResolved(s, c, ns[k], p)
    ensures RowResolved(s, gate, substitute, garbage0, c, ns, k + 1, p)
  {
  }

  lemma NoRows(s: State, gate: set<nat>, substitute: bool, garbage0: set<nat>, ps: seq<nat>, ns: seq<nat>, p: Lit)
    ensures RowsResolved(s, gate, substitute, garbage0, ps, ns, 0, p)
  {
  }

  lemma MoreRows(s: State, gate: set<nat>, substitute: bool, garbage0: set<nat>, ps: seq<nat>, ns: seq<nat>, i: nat,
        p: Lit)
    requires i < |ps| && RowsResolved(s, gate, substitute, garbage0, ps, ns, i, p)
    requires RowResolved(s, gate, substitute, garbage0, ps[i], ns, |ns|, p)
    ensures RowsResolved(s, gate, substitute, garbage0, ps, ns, i + 1, p)
  {
  }

  lemma SidesKept(s: State, t: State, ps: seq<nat>, p: Lit, q: Lit)
    requires Sides(s.literals, ps, p) && Moves(s, t, q)
    ensures Sides(t.literals, ps, p)
  {
  }

  lemma ListsTrans(a: map<Lit, seq<nat>>, b: map<Lit, seq<nat>>, c: map<Lit, seq<nat>>, p: Lit)
    requires SameLists(a, b, p) && SameLists(b, c, p)
    ensures SameLists(a, c, p)
  {
    assert p in a.Keys <==> p in b.Keys;
    assert Neg(p) in a.Keys <==> Neg(p) in b.Keys;
  }

  // ----------------------------------------------------- dropping the clauses

  /** The clauses pushed for one side: those of the gate, or all. */
  ghost predicate Picked(gs: seq<nat>, list: seq<nat>, garbage: set<nat>, gate: set<nat>, substitute: bool) {
    forall r :: r in gs <==> r in list && r !in garbage && (!substitute || r in gate)
  }

  ghost function ClausesOf(literals: map<nat, Clause>, rs: seq<nat>): (cs: seq<Clause>)
    requires forall r :: r in rs ==> r in literals
    ensures |cs| == |rs|
  {
    seq(|rs|, i requires 0 <= i < |rs| => assert rs[i] in rs; literals[rs[i]])
  }

  /** Push the clauses with one sign of the pivot, drop all of them, and erase the
      occurrence list. */
  method DropSide(e: Eliminator, pivot: Lit) returns (ghost gs: seq<nat>)
    requires e.Valid() && pivot in e.occs
    modifies e`garbage, e`occs, e`extension
    ensures e.Valid() && Picked(gs, old(e.occs)[pivot], old(e.garbage), e.gate, e.gates != [])
    ensures (forall r :: r in gs ==> r in e.literals)
    ensures e.extension == old(e.extension) + Entries(ClausesOf(e.literals, gs), pivot, gs)
    ensures e.occs == old(e.occs)[pivot := []]
    ensures forall r :: r in e.garbage <==> r in old(e.garbage) || r in old(e.occs)[pivot]
  {
    hide Connected, Entries, Picked;
    var substitute := e.gates != [];
    var ps := e.occs[pivot];
    gs := [];
    ListedClauses(e.literals, e.garbage, e.occs, e.vars, e.next, pivot);
    ghost var extension0, garbage0 := e.extension, e.garbage;
    NothingPicked(e.literals, pivot, ps, e.garbage, e.gate, substitute);
    for k := 0 to |ps|
      invariant e.Valid() && e.occs == old(e.occs) && (forall r :: r in gs ==> r in e.literals)
      invariant Picked(gs, ps[..k], garbage0, e.gate, substitute)
      invariant e.extension == extension0 + Entries(ClausesOf(e.literals, gs), pivot, gs)
      invariant forall r :: r in e.garbage <==> r in garbage0 || r in ps[..k]
    {
      var c := ps[k];
      assert ps[..k+1] == ps[..k] + [c] && c in ps;
      if c in e.garbage {
        SkipPicked(gs, ps, k, garbage0, e.gate, substitute);
        continue;
      }
      if !substitute || c in e.gate {
        PickOne(e.literals, gs, pivot, c);
        e.extension := e.extension + [Entry([pivot], c, e.literals[c])];
        gs := gs + [c];
      }
      MorePicked(gs, ps, k, garbage0, e.gate, substitute);
      MoreGarbage(e.literals, e.garbage, e.occs, e.vars, e.next, c);
      e.garbage := e.garbage + {c};
    }
    assert ps[..|ps|] == ps;
    Erased(e.literals, e.garbage, e.occs, e.vars, e.next, pivot);
    e.occs := e.occs[pivot := []];
  }

  lemma ListedClauses(literals: map<nat, Clause>, garbage: set<nat>, occs: map<Lit, seq<nat>>, vars: set<int>,
        next: nat, p: Lit)
    requires Connected(literals, garbage, occs, vars, next) && p in occs
    ensures forall r :: r in occs[p] ==> r in literals && p in literals[r] && Neg(p) !in literals[r]
    ensures forall r :: r in literals && r !in garbage && p in literals[r] ==> r in occs[p]
  {
    forall r | r in occs[p]
      ensures r in literals && p in literals[r] && Neg(p) !in literals[r]
    {
      assert p in Lits(literals[r]);
    }
  }

  lemma Erased(literals: map<nat, Clause>, garbage: set<nat>, occs: map<Lit, seq<nat>>, vars: set<int>, next: nat,
        p: Lit)
    requires Connected(literals, garbage, occs, vars, next) && p in occs && forall r :: r in occs[p] ==> r in garbage
    ensures Connected(literals, garbage, occs[p := []], vars, next)
  {
  }

  lemma NothingPicked(literals: map<nat, Clause>, pivot: Lit, ps: seq<nat>, garbage: set<nat>, gate: set<nat>,
        substitute: bool)
    ensures Picked([], ps[..0], garbage, gate, substitute) && Entries(ClausesOf(literals, []), pivot, []) == []
  {
  }

  lemma SkipPicked(gs: seq<nat>, ps: seq<nat>, k: nat, garbage: set<nat>, gate: set<nat>, substitute: bool)
    requires k < |ps| && Picked(gs, ps[..k], garbage, gate, substitute) && (ps[k] in garbage || ps[k] in ps[..k])
    ensures Picked(gs, ps[..k+1], garbage, gate, substitute)
  {
    assert ps[..k+1] == ps[..k] + [ps[k]];
  }

  lemma MorePicked(gs: seq<nat>, ps: seq<nat>, k: nat, garbage: set<nat>, gate: set<nat>, substitute: bool)
    requires k < |ps| && ps[k] !in garbage
    requires if !substitute || ps[k] in gate
      then gs != [] && gs[|gs|-1] == ps[k] && Picked(gs[..|gs|-1], ps[..k], garbage, gate, substitute)
      else Picked(gs, ps[..k], garbage, gate, substitute)
    ensures Picked(gs, ps[..k+1], garbage, gate, substitute)
  {
    assert ps[..k+1] == ps[..k] + [ps[k]];
    if !substitute || ps[k] in gate {
      assert gs == gs[..|gs|-1] + [ps[k]];
    }
  }

  lemma PickOne(literals: map<nat, Clause>, gs: seq<nat>, pivot: Lit, c: nat)
    requires (forall r :: r in gs ==> r in literals) && c in literals
    ensures forall r :: r in gs + [c] ==> r in literals
    ensures Entries(ClausesOf(literals, gs + [c]), pivot, gs + [c]) ==
      Entries(ClausesOf(literals, gs), pivot, gs) + [Entry([pivot], c, literals[c])]
    ensures (gs + [c])[..|gs|] == gs
  {
  }

  // ------------------------------------------------------------------ theorem

  /** The clauses with the pivot that are left, listed by sign. */
  ghost predicate Sided(s: State, ps: seq<nat>, p: Lit) {
    && (forall r :: r in ps ==> r in s.literals && p in s.literals[r] && Neg(p) !in s.literals[r])
    && (forall r :: r in s.literals && r !in s.garbage && p in s.literals[r] ==> r in ps)
  }

  lemma PickedOccurs(s: State, gs: seq<nat>, ps: seq<nat>, gate: set<nat>, substitute: bool, p: Lit)
    requires Sided(s, ps, p) && Picked(gs, ps, s.garbage, gate, substitute)
    ensures (forall r :: r in gs ==> r in s.literals) && Occurs(ClausesOf(s.literals, gs), p)
  {
    forall i | 0 <= i < |gs|
      ensures p in s.literals[gs[i]] && Neg(p) !in s.literals[gs[i]]
    {
      assert gs[i] in gs;
    }
  }

  lemma RowPair(s: State, gate: set<nat>, substitute: bool, garbage0: set<nat>, ps: seq<nat>, ns: seq<nat>, p: Lit,
        c: nat, d: nat)
    requires RowsResolved(s, gate, substitute, garbage0, ps, ns, |ps|, p)
    requires c in ps && d in ns && c !in garbage0 && d !in garbage0 && Pairs(gate, substitute, c, d)
    ensures PairResolved(s, c, d, p)
  {
    var i :| 0 <= i < |ps| && ps[i] == c;
    var j :| 0 <= j < |ns| && ns[j] == d;
    assert RowResolved(s, gate, substitute, garbage0, ps[i], ns, |ns|, p);
  }

  /** What elimination needs: gate property at the start, resolvents at the end. */
  ghost predicate Eliminable(s0: State, s: State, gate: set<nat>, substitute: bool, garbage0: set<nat>, ps: seq<nat>,
        ns: seq<nat>, p: Lit) {
    && Moves(s0, s, p) && Val(p, s.vals) == 0 && !s.unsat && s0.garbage <= garbage0 <= s.garbage
    && Sided(s, ps, p) && Sided(s, ns, Neg(p))
    && RowsResolved(s, gate, substitute, garbage0, ps, ns, |ps|, p)
    && (substitute ==> IsGate(s0, gate, p))
  }

  /** All clauses of the two sides that have to be resolved have been. */
  lemma PickedResolved(s0: State, s: State, gate: set<nat>, substitute: bool, garbage0: set<nat>, ps: seq<nat>,
        ns: seq<nat>, p: Lit, cs: seq<nat>, ds: seq<nat>)
    requires Eliminable(s0, s, gate, substitute, garbage0, ps, ns, p)
    requires forall c :: c in cs ==> c in ps && c in s.literals && c !in s.garbage
    requires forall d :: d in ds ==> d in ns && d in s.literals && d !in s.garbage
    requires forall c, d :: c in cs && d in ds ==> Pairs(gate, substitute, c, d)
    ensures AllResolved(Without(F(s), p), ClausesOf(s.literals, cs), ClausesOf(s.literals, ds), p)
  {
    hide RowsResolved, Moves, IsGate, Pairs, ResolventHolds;
    forall i, j | 0 <= i < |cs| && 0 <= j < |ds|
      ensures ResolventHolds(Without(F(s), p), s.literals[cs[i]], s.literals[ds[j]], p)
    {
      assert cs[i] in cs && ds[j] in ds;
      RowPair(s, gate, substitute, garbage0, ps, ns, p, cs[i], ds[j]);
    }
  }

  lemma DroppedSatisfied(s0: State, s: State, r: nat, p: Lit, q: Lit, m: Model)
    requires Moves(s0, s, p) && Val(p, s.vals) == 0 && r in s0.literals && r !in s0.garbage && r in s.garbage
    requires (q == p || q == Neg(p)) && Models(m, Without(F(s), p))
    ensures SatLits(Rest(Lits(s0.literals[r]), q), m)
  {
    assert Implied(Without(F(s), p), Lits(s0.literals[r]) - {p, Neg(p)});
    var l :| l in Lits(s0.literals[r]) - {p, Neg(p)} && True(l, m);
    assert l in Rest(Lits(s0.literals[r]), q);
  }

  /** Dropped gate clauses do not force anything any more. */
  lemma GateForces(s0: State, s: State, gate: set<nat>, garbage0: set<nat>, ps: seq<nat>, ns: seq<nat>, p: Lit, q: Lit,
        gs: seq<nat>, list: seq<nat>, m: Model)
    requires Eliminable(s0, s, gate, true, garbage0, ps, ns, p) && (q == p || q == Neg(p)) && Sided(s, list, q)
    requires Picked(gs, list, s.garbage, gate, true) && Models(m, Without(F(s), p))
    requires (forall r :: r in gs ==> r in s.literals)
    ensures Forces(ClausesOf(s.literals, gs), q, m) <==> ForcedBy(s0.literals, gate, q, m)
  {
    hide RowsResolved, F;
    if Forces(ClausesOf(s.literals, gs), q, m) {
      var i :| 0 <= i < |gs| && !SatLits(Rest(Lits(s.literals[gs[i]]), q), m);
      assert gs[i] in gs && gs[i] in list && gs[i] in gate;
      assert s.literals[gs[i]] == s0.literals[gs[i]];
    }
    if ForcedBy(s0.literals, gate, q, m) {
      var r :| r in gate && r in s0.literals && q in s0.literals[r] && !SatLits(Rest(Lits(s0.literals[r]), q), m);
      assert s.literals[r] == s0.literals[r] && r !in s0.garbage;
      if r in s.garbage {
        DroppedSatisfied(s0, s, r, p, q, m);
      }
      assert r in list && r in gs;
      var i :| 0 <= i < |gs| && gs[i] == r;
      assert !SatLits(Rest(Lits(ClausesOf(s.literals, gs)[i]), q), m);
    }
  }

  lemma GateExactlyOne(s0: State, s: State, gate: set<nat>, garbage0: set<nat>, ps: seq<nat>, ns: seq<nat>, p: Lit,
        gp: seq<nat>, gn: seq<nat>)
    requires Eliminable(s0, s, gate, true, garbage0, ps, ns, p)
    requires Picked(gp, ps, s.garbage, gate, true) && Picked(gn, ns, s.garbage, gate, true)
    requires (forall r :: r in gp ==> r in s.literals) && (forall r :: r in gn ==> r in s.literals)
    ensures ExactlyOne(Without(F(s), p), ClausesOf(s.literals, gp), ClausesOf(s.literals, gn), p)
  {
    hide RowsResolved, Picked, ForcedBy, Forces, ClausesOf;
    forall m: Model | Models(m, Without(F(s), p))
      ensures Forces(ClausesOf(s.literals, gp), p, m) <==> !Forces(ClausesOf(s.literals, gn), Neg(p), m)
    {
      GateForces(s0, s, gate, garbage0, ps, ns, p, p, gp, ps, m);
      GateForces(s0, s, gate, garbage0, ps, ns, p, Neg(p), gn, ns, m);
      assert Models(m, Without(F(s0), p));
    }
  }

  lemma WithoutTwice(f: Formula, p: Lit)
    ensures Without(Without(f, p), p) == Without(f, p)
  {
  }

  /** After replay the clauses pushed are satisfied, and with a gate also all other
      clauses with the pivot. */
  lemma ListsSatisfied(s0: State, s: State, gate: set<nat>, substitute: bool, garbage0: set<nat>, ps: seq<nat>,
        ns: seq<nat>, p: Lit,
      gp: seq<nat>, gn: seq<nat>, op: seq<nat>, on: seq<nat>, m: Model)
    requires Eliminable(s0, s, gate, substitute, garbage0, ps, ns, p)
    requires Picked(gp, ps, s.garbage, gate, substitute) && Picked(gn, ns, s.garbage, gate, substitute)
    requires (forall k :: k in gp ==> k in s.literals) && (forall k :: k in gn ==> k in s.literals)
    requires Models(m, Without(F(s), p))
    requires !substitute ==> op == [] && on == []
    requires forall k :: k in op ==> k in ps && k in s.literals && k !in s.garbage && k !in gate
    requires forall k :: k in on ==> k in ns && k in s.literals && k !in s.garbage && k !in gate
    ensures var n := Replay(
      Entries(ClausesOf(s.literals, gp), p, gp) + Entries(ClausesOf(s.literals, gn), Neg(p), gn), m);
            && Models(n, Without(F(s), p))
            && AllSatisfied(ClausesOf(s.literals, gp), n) && AllSatisfied(ClausesOf(s.literals, gn), n)
            && AllSatisfied(ClausesOf(s.literals, op), n) && AllSatisfied(ClausesOf(s.literals, on), n)
  {
    hide F, Moves, RowsResolved, IsGate, AllResolved, ExactlyOne, Replay, AllSatisfied;
    var f := Without(F(s), p);
    var cp, cn := ClausesOf(s.literals, gp), ClausesOf(s.literals, gn);
    PickedOccurs(s, gp, ps, gate, substitute, p);
    PickedOccurs(s, gn, ns, gate, substitute, Neg(p));
    WithoutTwice(F(s), p);
    if !substitute {
      PickedResolved(s0, s, gate, substitute, garbage0, ps, ns, p, gp, gn);
      PlainEliminated(f, cp, cn, p, gp, gn, m);
      NoneListed(s.literals, Replay(Entries(cp, p, gp) + Entries(cn, Neg(p), gn), m));
    } else {
      GateExactlyOne(s0, s, gate, garbage0, ps, ns, p, gp, gn);
      PickedResolved(s0, s, gate, substitute, garbage0, ps, ns, p, gp, on);
      PickedResolved(s0, s, gate, substitute, garbage0, ps, ns, p, op, gn);
      OtherOccurs(s, op, ps, p);
      OtherOccurs(s, on, ns, Neg(p));
      GateEliminated(f, cp, ClausesOf(s.literals, op), cn, ClausesOf(s.literals, on), p, gp, gn, m);
    }
  }

  lemma OtherOccurs(s: State, rs: seq<nat>, list: seq<nat>, p: Lit)
    requires Sided(s, list, p) && forall k :: k in rs ==> k in list && k in s.literals
    ensures Occurs(ClausesOf(s.literals, rs), p)
  {
    forall i | 0 <= i < |rs|
      ensures p in s.literals[rs[i]] && Neg(p) !in s.literals[rs[i]]
    {
      assert rs[i] in rs;
    }
  }

  lemma NoneListed(literals: map<nat, Clause>, n: Model)
    ensures AllSatisfied(ClausesOf(literals, []), n)
  {
  }

  /** A clause with the pivot is satisfied after replay. */
  lemma SideSatisfied(s0: State, s: State, gate: set<nat>, substitute: bool, garbage0: set<nat>, ps: seq<nat>,
        ns: seq<nat>, p: Lit,
      gp: seq<nat>, gn: seq<nat>, m: Model, r: nat)
    requires Eliminable(s0, s, gate, substitute, garbage0, ps, ns, p)
    requires Picked(gp, ps, s.garbage, gate, substitute) && Picked(gn, ns, s.garbage, gate, substitute)
    requires (forall k :: k in gp ==> k in s.literals) && (forall k :: k in gn ==> k in s.literals)
    requires Models(m, Without(F(s), p)) && r in s.literals && r !in s.garbage
    requires p in s.literals[r] || Neg(p) in s.literals[r]
    ensures SatClause(s.literals[r],
      Replay(Entries(ClausesOf(s.literals, gp), p, gp) + Entries(ClausesOf(s.literals, gn), Neg(p), gn), m))
  {
    hide F, Moves, RowsResolved, IsGate, Replay, Entries;
    var others := if substitute && r !in gate then [r] else [];
    if p in s.literals[r] {
      ListsSatisfied(s0, s, gate, substitute, garbage0, ps, ns, p, gp, gn, others, [], m);
      FoundIn(gp, r, s.literals);
    } else {
      ListsSatisfied(s0, s, gate, substitute, garbage0, ps, ns, p, gp, gn, [], others, m);
      FoundIn(gn, r, s.literals);
    }
    FoundIn(others, r, s.literals);
  }

  lemma FoundIn(rs: seq<nat>, r: nat, literals: map<nat, Clause>)
    requires forall k :: k in rs ==> k in literals
    ensures r in rs ==> exists i :: 0 <= i < |rs| && r in literals && ClausesOf(literals, rs)[i] == literals[r]
  {
    if r in rs {
      var i :| 0 <= i < |rs| && rs[i] == r;
      assert ClausesOf(literals, rs)[i] == literals[r];
    }
  }

  /** Replaying the pushed clauses turns every model of the clauses without the
      pivot into a model of all of them. */
  lemma EliminationReconstructs(s0: State, s: State, gate: set<nat>, substitute: bool, garbage0: set<nat>, ps: seq<nat>,
        ns: seq<nat>, p: Lit,
      gp: seq<nat>, gn: seq<nat>)
    requires Eliminable(s0, s, gate, substitute, garbage0, ps, ns, p)
    requires Picked(gp, ps, s.garbage, gate, substitute) && Picked(gn, ns, s.garbage, gate, substitute)
    requires (forall k :: k in gp ==> k in s.literals) && (forall k :: k in gn ==> k in s.literals)
    ensures Reconstructs(Without(F(s), p),
      Entries(ClausesOf(s.literals, gp), p, gp) + Entries(ClausesOf(s.literals, gn), Neg(p), gn), F(s))
  {
    hide Moves, RowsResolved, IsGate, Sided, Picked, Entries, ClausesOf;
    var es := Entries(ClausesOf(s.literals, gp), p, gp) + Entries(ClausesOf(s.literals, gn), Neg(p), gn);
    forall m: Model | Models(m, Without(F(s), p))
      ensures Models(Replay(es, m), F(s))
    {
      var n := Replay(es, m);
      ListsSatisfied(s0, s, gate, substitute, garbage0, ps, ns, p, gp, gn, [], [], m);
      forall c | c in F(s)
        ensures SatLits(c, n)
      {
        if c in Live(s.literals, s.garbage) && (p in c || Neg(p) in c) {
          var r :| r in s.literals && r !in s.garbage && Lits(s.literals[r]) == c;
          SideSatisfied(s0, s, gate, substitute, garbage0, ps, ns, p, gp, gn, m, r);
          SatLitsOfClause(s.literals[r], n);
        } else {
          assert c in Without(F(s), p);
        }
      }
    }
  }
}

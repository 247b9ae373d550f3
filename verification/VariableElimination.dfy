/** Bounded variable elimination of one variable, from the search for a gate to
    the extension stack. */
module VariableElimination {
  import opened Logic
  import opened Reconstruction
  import opened Clauses
  import opened Elimination
  import opened Elim
  import opened GateLogic
  import opened Gates
  import opened AndGates
  import opened IteGates
  import opened XorGates
  import opened Eliminate
  import opened ResolventCount

  lemma BothSigns(literals: map<nat, Clause>, garbage: set<nat>, vals: map<int, bool>, p: Lit)
    ensures Neg(Neg(p)) == p && Val(Neg(p), vals) == 0 - Val(p, vals)
    ensures Clean(literals, garbage, vals, p) <==> Clean(literals, garbage, vals, Neg(p))
    ensures Gone(literals, garbage, vals, p) <==> Gone(literals, garbage, vals, Neg(p))
  {
    assert Neg(Neg(p)) == p;
  }

  /** Which gates are searched for, and how long parity constraints may be. */
  datatype GateOptions = GateOptions(
    subst: bool, equivs: bool, ands: bool, ites: bool, xors: bool, xorLimit: nat)

  /** The first `n` searches have something to find. */
  ghost predicate Detects(s: State, occs: map<Lit, seq<nat>>, p: Lit, options: GateOptions, n: nat)
    requires p in occs && Neg(p) in occs
  {
    || (n >= 1 && options.equivs && HasEquivalence(s, occs[Neg(p)], occs[p], p))
    || (n >= 2 && options.ands && HasAnd(s, occs[Neg(p)], occs[p], p))
    || (n >= 3 && options.ands && HasAnd(s, occs[p], occs[Neg(p)], Neg(p)))
    || (n >= 4 && options.ites && HasIte(s, occs[p], p))
    || (n >= 5 && options.xors && HasXor(s, occs[p], options.xorLimit))
  }

  /** After the first `n <= 3` searches a gate has been flagged exactly if there
      was something to find, unless units were found on the way. */
  ghost predicate LookedFor(e: Eliminator, s0: State, p: Lit, options: GateOptions, n: nat)
    reads e
    requires p in e.occs && Neg(p) in e.occs
  {
    && Found(e, p) && (e.gates != [] ==> GateOver(e.literals, e.gate, p, e.vals))
    && (!e.unsat && e.vals == s0.vals ==> (e.gates != [] <==> Detects(e.S(), e.occs, p, options, n)))
  }

  /** The same after all searches; the first kind found is the one flagged. */
  ghost predicate Looked(e: Eliminator, s0: State, p: Lit, options: GateOptions)
    reads e
    requires p in e.occs && Neg(p) in e.occs
  {
    !e.unsat && e.vals == s0.vals ==>
      && (e.gates != [] <==> Detects(e.S(), e.occs, p, options, 5))
      && (e.gates != [] ==>
            if Detects(e.S(), e.occs, p, options, 3) then GateOver(e.literals, e.gate, p, e.vals)
            else if Detects(e.S(), e.occs, p, options, 4) then IteFlagged(e, p)
            else XorFlagged(e, p))
  }

  ghost predicate Shaped(e: Eliminator, p: Lit, options: GateOptions)
    reads e`literals, e`gate, e`vals
  {
    || GateOver(e.literals, e.gate, p, e.vals)
    || (options.ites && IteFlagged(e, p)) || (options.xors && XorFlagged(e, p))
  }

  lemma DetectsEarlier(s: State, t: State, occs: map<Lit, seq<nat>>, p: Lit, options: GateOptions, n: nat)
    requires p in occs && Neg(p) in occs && n <= 3 && Detects(t, occs, p, options, n)
    requires t.literals == s.literals && t.vals == s.vals && s.garbage <= t.garbage
    ensures Detects(s, occs, p, options, n)
  {
    hide AndAt, LiveBinary, BinaryIn;
    if HasEquivalence(t, occs[Neg(p)], occs[p], p) {
      var i, k, x: Lit :| 0 <= i < |occs[Neg(p)]| && 0 <= k < |occs[p]| &&
        EquivalenceAt(t, occs[Neg(p)][i], occs[p][k], p, x);
      EquivalenceEarlier(s, t, occs[Neg(p)][i], occs[p][k], p, x);
    }
    if HasAnd(t, occs[Neg(p)], occs[p], p) {
      var k :| 0 <= k < |occs[Neg(p)]| && AndAt(t, occs[Neg(p)][k], occs[p], p);
      AndEarlier(s, t, occs[Neg(p)][k], occs[p], p);
    }
    if HasAnd(t, occs[p], occs[Neg(p)], Neg(p)) {
      var k :| 0 <= k < |occs[p]| && AndAt(t, occs[p][k], occs[Neg(p)], Neg(p));
      AndEarlier(s, t, occs[p][k], occs[Neg(p)], Neg(p));
    }
  }

  lemma EquivalenceEarlier(s: State, t: State, c: nat, d: nat, p: Lit, x: Lit)
    requires t.literals == s.literals && t.vals == s.vals && s.garbage <= t.garbage && EquivalenceAt(t, c, d, p, x)
    ensures EquivalenceAt(s, c, d, p, x)
  {
  }

  /** Values are never taken back. */
  lemma SameValues(s0: State, s: State, t: State, p: Lit)
    requires Searched(s0, s, p) && Searched(s, t, p) && t.vals == s0.vals
    ensures s.vals == s0.vals && s.garbage <= t.garbage && t.literals == s.literals && (s.unsat ==> t.unsat)
  {
    hide Clean;
    KeepsFacts(s0, s, p);
    KeepsFacts(s, t, p);
    forall v
      ensures v in s.vals.Keys <==> v in s0.vals.Keys
    {
      assert v in s0.vals ==> v in s.vals;
      assert v in s.vals ==> v in t.vals;
    }
    assert s.vals.Keys == s0.vals.Keys;
    forall v | v in s.vals.Keys
      ensures s0.vals[v] == s.vals[v]
    {
    }
  }

  /** No further search is made once it is clear that none is needed. */
  lemma NotContinued(e: Eliminator, s0: State, p: Lit, options: GateOptions, n: nat)
    requires p in e.occs && Neg(p) in e.occs && n < 3 && Val(p, s0.vals) == 0
    requires LookedFor(e, s0, p, options, n)
    requires !Continue(e, p) || (if n == 0 then !options.equivs else !options.ands)
    ensures LookedFor(e, s0, p, options, n + 1)
  {
    hide HasEquivalence, HasAnd, HasIte, HasXor, GateOver, Found;
  }

  /** One more search, after which nothing is there that was not there before. */
  lemma LookedMore(e: Eliminator, s0: State, s: State, p: Lit, options: GateOptions, n: nat)
    requires p in e.occs && Neg(p) in e.occs && n < 3
    requires Searched(s0, s, p) && Searched(s, e.S(), p) && !s.unsat
    requires Found(e, p) && (e.gates != [] ==> GateOver(e.literals, e.gate, p, e.vals))
    requires s.vals == s0.vals ==> !Detects(s, e.occs, p, options, n)
    requires !e.unsat && e.vals == s.vals ==> (e.gates != [] <==> (
      if n == 0 then options.equivs && HasEquivalence(e.S(), e.occs[Neg(p)], e.occs[p], p)
      else if n == 1 then options.ands && HasAnd(e.S(), e.occs[Neg(p)], e.occs[p], p)
      else options.ands && HasAnd(e.S(), e.occs[p], e.occs[Neg(p)], Neg(p))))
    ensures LookedFor(e, s0, p, options, n + 1)
  {
    hide HasEquivalence, HasAnd, HasIte, HasXor, GateOver, Found, Searched;
    if !e.unsat && e.vals == s0.vals {
      SameValues(s0, s, e.S(), p);
      if Detects(e.S(), e.occs, p, options, n) {
        DetectsEarlier(s, e.S(), e.occs, p, options, n);
      }
    }
  }

  lemma NothingToFind(e: Eliminator, s0: State, p: Lit, options: GateOptions, n: nat)
    requires p in e.occs && Neg(p) in e.occs && LookedFor(e, s0, p, options, n) && Continue(e, p)
    ensures e.vals == s0.vals ==> !Detects(e.S(), e.occs, p, options, n)
    ensures Found(e, p)
  {
  }

  /** The searches that do not skip assigned literals. */
  method LookForBinary(e: Eliminator, pivot: Lit, options: GateOptions)
    requires Ready(e, pivot) && !e.unsat && Val(pivot, e.vals) == 0
    modifies e`garbage, e`vals, e`unsat, e`marks, e`markedStack, e`gate, e`gates
    ensures e.Valid() && Searched(old(e.S()), e.S(), pivot) && e.marks == map[] && e.markedStack == []
    ensures LookedFor(e, old(e.S()), pivot, options, 3)
  {
    hide Found, Searched, Connected, LookedFor, Detects, HasEquivalence, HasAnd, GateOver;
    ghost var s0 := e.S();
    NotLooked(e, s0, pivot, options);
    SearchedNot(s0, pivot);
    if options.equivs {
      FindEquivalence(e, pivot);
      NothingDetected(s0, e.occs, pivot, options);
      LookedMore(e, s0, s0, pivot, options, 0);
    } else {
      NotContinued(e, s0, pivot, options, 0);
    }
    if options.ands && Continue(e, pivot) {
      ghost var s1 := e.S();
      NothingToFind(e, s0, pivot, options, 1);
      StillReady(e, pivot);
      FindAndGate(e, pivot, pivot);
      LookedMore(e, s0, s1, pivot, options, 1);
      SearchedTrans(s0, s1, e.S(), pivot);
    } else {
      NotContinued(e, s0, pivot, options, 1);
    }
    if options.ands && Continue(e, pivot) {
      ghost var s2 := e.S();
      BothSigns(e.literals, e.garbage, e.vals, pivot);
      NothingToFind(e, s0, pivot, options, 2);
      StillReady(e, pivot);
      FindAndGate(e, Neg(pivot), pivot);
      LookedMore(e, s0, s2, pivot, options, 2);
      SearchedTrans(s0, s2, e.S(), pivot);
    } else {
      NotContinued(e, s0, pivot, options, 2);
    }
  }

  lemma NotLooked(e: Eliminator, s0: State, p: Lit, options: GateOptions)
    requires p in e.occs && Neg(p) in e.occs && e.gates == [] && e.gate == {}
    ensures LookedFor(e, s0, p, options, 0)
  {
  }

  lemma NothingDetected(s: State, occs: map<Lit, seq<nat>>, p: Lit, options: GateOptions)
    requires p in occs && Neg(p) in occs
    ensures !Detects(s, occs, p, options, 0)
  {
  }

  /** The searches for if-then-else and parity, which assign nothing. */
  method LookForShapes(e: Eliminator, pivot: Lit, options: GateOptions, ghost s0: State)
    requires e.Valid() && e.marks == map[] && e.markedStack == [] && pivot in e.occs && Neg(pivot) in e.occs
    requires LookedFor(e, s0, pivot, options, 3) && Val(pivot, s0.vals) == 0
    modifies e`gate, e`gates
    ensures Found(e, pivot) && (e.gates != [] ==> Shaped(e, pivot, options))
    ensures Looked(e, s0, pivot, options)
  {
    hide Found, Connected, HasEquivalence, HasAnd, HasIte, HasXor, GateOver, IteFlagged, XorFlagged;
    if options.ites && Continue(e, pivot) {
      StillReady(e, pivot);
      FindIfThenElse(e, pivot);
    }
    if options.xors && Continue(e, pivot) {
      StillReady(e, pivot);
      FindXorGate(e, pivot, options.xorLimit);
    }
  }

  /** `find_gate_clauses`: the first kind of gate that is found. */
  method FindGateClauses(e: Eliminator, pivot: Lit, options: GateOptions)
    requires Ready(e, pivot)
    modifies e`garbage, e`vals, e`unsat, e`marks, e`markedStack, e`gate, e`gates
    ensures e.Valid() && Searched(old(e.S()), e.S(), pivot) && e.marks == map[] && e.markedStack == []
    ensures Found(e, pivot) && (e.gates != [] ==> Shaped(e, pivot, options))
    ensures options.subst && !old(e.unsat) && Val(pivot, old(e.vals)) == 0 ==> Looked(e, old(e.S()), pivot, options)
    ensures !options.subst ==> e.gates == [] && e.S() == old(e.S())
  {
    hide Found, Searched, Connected, Looked, Shaped;
    ghost var s0 := e.S();
    SearchedNot(s0, pivot);
    NoneFound(e, pivot);
    if !options.subst {
      return;
    }
    if e.unsat {
      return;
    }
    if Val(pivot, e.vals) != 0 {
      return;
    }
    LookForBinary(e, pivot, options);
    LookForShapes(e, pivot, options, s0);
  }

  /** The guard of every search. */
  predicate Continue(e: Eliminator, pivot: Lit)
    reads e`unsat, e`vals, e`gates
  {
    !e.unsat && Val(pivot, e.vals) == 0 && e.gates == []
  }

  lemma StillReady(e: Eliminator, pivot: Lit)
    requires Continue(e, pivot) && e.Valid() && e.marks == map[] && e.markedStack == []
    requires Found(e, pivot) && pivot in e.occs && Neg(pivot) in e.occs
    ensures Ready(e, pivot)
  {
  }

  /** What was flagged and forces the pivot is a gate of the clauses. */
  lemma FoundIsGate(e: Eliminator, pivot: Lit)
    requires Found(e, pivot) && e.gates != [] && e.Valid() && GateOver(e.literals, e.gate, pivot, e.vals)
    ensures IsGate(e.S(), e.gate, pivot)
  {
    hide GateOver, IsGate, Flagged, Connected;
    ValuesPositive(e.literals, e.garbage, e.occs, e.vars, e.next, e.vals);
    GateOverIsGate(e.S(), e.gate, pivot);
  }

  lemma CleanGate(e: Eliminator, pivot: Lit)
    requires Found(e, pivot) && Clean(e.literals, e.garbage, e.vals, pivot)
    ensures NoneSatisfied(e.literals, e.gate, e.vals)
  {
  }

  /** The variable does not occur any more. */
  ghost predicate Gone(literals: map<nat, Clause>, garbage: set<nat>, vals: map<int, bool>, p: Lit) {
    Val(p, vals) == 0 && forall r :: r in literals && r !in garbage ==> p !in literals[r] && Neg(p) !in literals[r]
  }

  /** `mark_eliminated_clauses_as_garbage`: what is left are the clauses without the
      pivot. */
  method MarkEliminated(e: Eliminator, pivot: Lit) returns (ghost gp: seq<nat>, ghost gn: seq<nat>)
    requires e.Valid() && Val(pivot, e.vals) == 0 && pivot in e.occs && Neg(pivot) in e.occs && !e.unsat
    modifies e`garbage, e`occs, e`extension
    ensures e.Valid() && F(e.S()) == Without(F(old(e.S())), pivot)
    ensures Picked(gp, old(e.occs)[pivot], old(e.garbage), e.gate, e.gates != [])
    ensures (forall r :: r in gp ==> r in e.literals)
    ensures Picked(gn, old(e.occs)[Neg(pivot)], old(e.garbage), e.gate, e.gates != [])
    ensures (forall r :: r in gn ==> r in e.literals)
    ensures e.extension == old(e.extension) + Entries(ClausesOf(e.literals, gp), pivot, gp) +
      Entries(ClausesOf(e.literals, gn), Neg(pivot), gn)
    ensures Gone(e.literals, e.garbage, e.vals, pivot)
    ensures e.occs.Keys == old(e.occs).Keys && old(e.garbage) <= e.garbage
  {
    hide Connected, Entries, Picked, F;
    ghost var s := e.S();
    ghost var ps, ns := e.occs[pivot], e.occs[Neg(pivot)];
    ListedClauses(e.literals, e.garbage, e.occs, e.vars, e.next, pivot);
    ListedClauses(e.literals, e.garbage, e.occs, e.vars, e.next, Neg(pivot));
    assert Neg(Neg(pivot)) == pivot;
    gp := DropSide(e, pivot);
    ghost var later := e.garbage;
    gn := DropSide(e, Neg(pivot));
    PickedBefore(gn, ns, ps, s.garbage, later, s.literals, pivot, e.gate, e.gates != []);
    LeftWithout(s, e.S(), ps, ns, pivot);
  }

  lemma PickedBefore(gn: seq<nat>, ns: seq<nat>, ps: seq<nat>, garbage: set<nat>, later: set<nat>, literals: map<nat,
        Clause>, p: Lit, gate: set<nat>, substitute: bool)
    requires Picked(gn, ns, later, gate, substitute) && forall r :: r in later <==> r in garbage || r in ps
    requires forall r :: r in ns ==> r in literals && p !in literals[r]
    requires forall r :: r in ps ==> r in literals && p in literals[r]
    ensures Picked(gn, ns, garbage, gate, substitute)
  {
  }

  lemma LeftWithout(s: State, t: State, ps: seq<nat>, ns: seq<nat>, p: Lit)
    requires t.literals == s.literals && t.vals == s.vals && t.unsat == s.unsat == false && Val(p, s.vals) == 0
    requires forall r :: r in t.garbage <==> r in s.garbage || r in ps || r in ns
    requires forall r :: r in ps ==> r in s.literals && p in s.literals[r]
    requires forall r :: r in ns ==> r in s.literals && Neg(p) in s.literals[r]
    requires forall r :: r in s.literals && r !in s.garbage && p in s.literals[r] ==> r in ps
    requires forall r :: r in s.literals && r !in s.garbage && Neg(p) in s.literals[r] ==> r in ns
    ensures F(t) == Without(F(s), p)
    ensures Gone(t.literals, t.garbage, t.vals, p)
  {
    WithoutUnits(s.literals, s.garbage, s.vals, s.unsat, p);
    forall c
      ensures c in F(t) <==> c in Without(F(s), p)
    {
      if c in Live(t.literals, t.garbage) {
        var r :| r in t.literals && r !in t.garbage && Lits(t.literals[r]) == c;
        assert c in Live(s.literals, s.garbage);
      }
      if c in Without(F(s), p) && c !in Units(s.vals) {
        var r :| r in s.literals && r !in s.garbage && Lits(s.literals[r]) == c;
        assert r !in t.garbage;
      }
    }
  }

  /** Either nothing was pushed and the clauses are equivalent, or the replay of
      what was pushed restores all clauses, provided that the gate is one. */
  ghost predicate Restores(s: State, t: State, es: seq<Entry>, gateHolds: bool) {
    && (forall m: Model :: Models(m, F(s)) ==> Models(m, F(t)))
    && (gateHolds ==> Reconstructs(F(t), es, F(s)))
  }

  lemma EquivalentRestores(s: State, t: State, gateHolds: bool)
    requires Equivalent(F(s), F(t))
    ensures Restores(s, t, [], gateHolds)
  {
  }

  lemma RestoresAfter(s: State, t: State, u: State, es: seq<Entry>, gateHolds: bool)
    requires Equivalent(F(s), F(t)) && Restores(t, u, es, gateHolds)
    ensures Restores(s, u, es, gateHolds)
  {
    hide F, Replay;
    forall m: Model | Models(m, F(s))
      ensures Models(m, F(u))
    {
      assert Models(m, F(t));
    }
    if gateHolds {
      forall m: Model | Models(m, F(u))
        ensures Models(Replay(es, m), F(s))
      {
        assert Models(Replay(es, m), F(t));
      }
    }
  }

  lemma SidedLists(s: State, occs: map<Lit, seq<nat>>, vars: set<int>, next: nat, p: Lit)
    requires Connected(s.literals, s.garbage, occs, vars, next) && p in occs
    ensures Sided(s, occs[p], p)
  {
    ListedClauses(s.literals, s.garbage, occs, vars, next, p);
  }

  lemma EliminatedRestores(s0: State, s: State, t: State, gate: set<nat>, substitute: bool, garbage0: set<nat>,
        ps: seq<nat>, ns: seq<nat>, p: Lit,
      gp: seq<nat>, gn: seq<nat>, gateHolds: bool)
    requires Moves(s0, s, p) && Val(p, s.vals) == 0 && !s.unsat && s0.garbage <= garbage0 <= s.garbage
    requires Sided(s, ps, p) && Sided(s, ns, Neg(p))
    requires RowsResolved(s, gate, substitute, garbage0, ps, ns, |ps|, p)
    requires (substitute && gateHolds ==> IsGate(s0, gate, p))
    requires Picked(gp, ps, s.garbage, gate, substitute) && Picked(gn, ns, s.garbage, gate, substitute)
    requires (forall r :: r in gp ==> r in s.literals) && (forall r :: r in gn ==> r in s.literals)
    requires F(t) == Without(F(s), p)
    ensures Restores(s0, t, Entries(ClausesOf(s.literals, gp), p, gp) + Entries(ClausesOf(s.literals, gn), Neg(p), gn),
      gateHolds)
  {
    hide F, RowsResolved, IsGate, Sided, Picked, Entries, ClausesOf, Replay, Advances, Dispensable;
    var es := Entries(ClausesOf(s.literals, gp), p, gp) + Entries(ClausesOf(s.literals, gn), Neg(p), gn);
    forall m: Model | Models(m, F(s0))
      ensures Models(m, F(t))
    {
      assert Models(m, F(s));
    }
    if gateHolds {
      EliminationReconstructs(s0, s, gate, substitute, garbage0, ps, ns, p, gp, gn);
      forall m: Model | Models(m, F(t))
        ensures Models(Replay(es, m), F(s0))
      {
        assert Models(Replay(es, m), F(s));
      }
    }
  }

  /** Add the resolvents and remove the clauses with the pivot, if not too many
      resolvents are needed. */
  method EliminatePivot(e: Eliminator, pivot: Lit, elimBound: int, clauseLimit: nat, ghost gateHolds: bool)
    returns (eliminated: bool, ghost es: seq<Entry>, ghost tally: Tally)
    requires e.Valid() && Val(pivot, e.vals) == 0 && !e.unsat && e.clause == [] && pivot in e.occs
    requires Neg(pivot) in e.occs
    requires e.gates != [] && gateHolds ==> IsGate(e.S(), e.gate, pivot)
    modifies e`literals, e`garbage, e`occs, e`vals, e`unsat, e`next, e`clause, e`extension
    ensures e.Valid() && e.clause == [] && e.extension == old(e.extension) + es
    ensures Restores(old(e.S()), e.S(), es, gateHolds)
    ensures pivot in e.occs && Neg(pivot) in e.occs
    ensures !eliminated ==> es == [] && e.S() == tally.after
    ensures eliminated && !e.unsat ==> Gone(e.literals, e.garbage, e.vals, pivot)
    ensures tally.w ==
      Sweep(old(e.S()), e.vars, e.gate, e.gates != [], old(e.occs)[pivot], old(e.occs)[Neg(pivot)], pivot)
    ensures Tallied(tally, elimBound, clauseLimit) && Since(tally.after, e.S())
    ensures eliminated ==>
      FromPairs(tally.after, e.S(), e.gate, e.gates != [], old(e.occs)[pivot], old(e.occs)[Neg(pivot)], pivot)
    ensures eliminated <==>
      !tally.after.unsat && Val(pivot, tally.after.vals) == 0 && !Exceeds(tally, elimBound, clauseLimit)
  {
    hide F, Connected, Moves, RowsResolved, Tallied, Exceeds, Since, IsGate, Sided, Picked, Entries, ClausesOf,
         Restores, Equivalent, FromPairs;
    ghost var s0, occs0 := e.S(), e.occs;
    es := [];
    eliminated, tally := ResolventsAreBounded(e, pivot, elimBound, clauseLimit);
    ghost var s1 := e.S();
    SinceItself(s1);
    MovesFacts(s0, s1, pivot);
    EquivalentRestores(s0, s1, gateHolds);
    if !eliminated {
      return;
    }
    ghost var ps, ns := e.occs[pivot], e.occs[Neg(pivot)];
    AddResolvents(e, pivot);
    ghost var s2 := e.S();
    MovesTrans(s0, s1, s2, pivot);
    MovesFacts(s0, s2, pivot);
    MovesFacts(s1, s2, pivot);
    EquivalentRestores(s0, s2, gateHolds);
    MovesSince(s1, s2, pivot);
    if !e.unsat {
      assert Neg(Neg(pivot)) == pivot;
      SidedLists(s2, e.occs, e.vars, e.next, pivot);
      SidedLists(s2, e.occs, e.vars, e.next, Neg(pivot));
      ghost var gp, gn := MarkEliminated(e, pivot);
      es := Entries(ClausesOf(e.literals, gp), pivot, gp) + Entries(ClausesOf(e.literals, gn), Neg(pivot), gn);
      EliminatedRestores(s0, s2, e.S(), e.gate, e.gates != [], s1.garbage, ps, ns, pivot, gp, gn, gateHolds);
      FewerLive(s2, e.S());
      SinceTrans(s1, s2, e.S());
      SameFromPairs(s1, s2, e.S(), e.gate, e.gates != [], ps, ns, pivot);
    }
  }

  lemma SameFromPairs(s0: State, s: State, t: State, gate: set<nat>, substitute: bool, ps: seq<nat>, ns: seq<nat>,
        p: Lit)
    requires FromPairs(s0, s, gate, substitute, ps, ns, p) && t.literals == s.literals
    ensures FromPairs(s0, t, gate, substitute, ps, ns, p)
  {
  }

  lemma FewerLive(s: State, t: State)
    requires t.literals == s.literals && t.vals == s.vals && s.garbage <= t.garbage
    ensures Since(s, t)
  {
  }

  /** `flush_occs`: only clauses that are not garbage stay in the list. */
  method FlushOccs(e: Eliminator, l: Lit) returns (n: nat)
    requires e.Valid() && l in e.occs
    modifies e`occs
    ensures e.Valid() && e.occs.Keys == old(e.occs).Keys && n == |e.occs[l]|
    ensures forall k :: k in e.occs && k != l ==> e.occs[k] == old(e.occs)[k]
    ensures ListsAll(e.occs[l], e.S(), l)
  {
    hide Connected;
    var os := e.occs[l];
    ListDistinct(e.literals, e.garbage, e.occs, e.vars, e.next, l);
    var kept: seq<nat> := [];
    for i := 0 to |os|
      invariant NoDuplicates(kept) && forall r :: r in kept <==> r in os[..i] && r !in e.garbage
    {
      assert os[..i+1] == os[..i] + [os[i]];
      if os[i] in e.garbage {
        continue;
      }
      kept := kept + [os[i]];
    }
    assert os[..|os|] == os;
    Flushed(e.literals, e.garbage, e.occs, e.vars, e.next, l, kept);
    FlushedAll(e.S(), e.occs, e.vars, e.next, l, kept);
    e.occs := e.occs[l := kept];
    n := |kept|;
  }

  lemma ListDistinct(literals: map<nat, Clause>, garbage: set<nat>, occs: map<Lit, seq<nat>>, vars: set<int>, next: nat,
        l: Lit)
    requires Connected(literals, garbage, occs, vars, next) && l in occs
    ensures NoDuplicates(occs[l])
  {
  }

  lemma Flushed(literals: map<nat, Clause>, garbage: set<nat>, occs: map<Lit, seq<nat>>, vars: set<int>, next: nat,
        l: Lit, kept: seq<nat>)
    requires Connected(literals, garbage, occs, vars, next) && l in occs && NoDuplicates(kept)
    requires forall r :: r in kept <==> r in occs[l] && r !in garbage
    ensures Connected(literals, garbage, occs[l := kept], vars, next)
  {
  }

  /** The clauses that contain `l`. */
  ghost function ClausesWith(s: State, l: Lit): set<nat> {
    set r | r in s.literals && r !in s.garbage && l in s.literals[r]
  }

  /** The list has exactly these clauses, each once. */
  ghost predicate ListsAll(list: seq<nat>, s: State, l: Lit) {
    NoDuplicates(list) && forall r :: r in list <==> r in ClausesWith(s, l)
  }

  lemma FlushedAll(s: State, occs: map<Lit, seq<nat>>, vars: set<int>, next: nat, l: Lit, kept: seq<nat>)
    requires Connected(s.literals, s.garbage, occs, vars, next) && l in occs && NoDuplicates(kept)
    requires forall r :: r in kept <==> r in occs[l] && r !in s.garbage
    ensures ListsAll(kept, s, l)
  {
  }

  lemma {:induction false} ListSize(list: seq<nat>, rs: set<nat>)
    requires NoDuplicates(list) && forall r :: r in list <==> r in rs
    ensures |list| == |rs|
  {
    if list == [] {
      assert rs == {};
    } else {
      var k := |list| - 1;
      var r := list[k];
      assert list == list[..k] + [r] && r !in list[..k];
      ListSize(list[..k], rs - {r});
      assert rs == (rs - {r}) + {r};
    }
  }

  /** Both signs occur, one of them too often. */
  ghost predicate OverLimit(s: State, p: Lit, occLimit: int) {
    && ClausesWith(s, p) != {} && ClausesWith(s, Neg(p)) != {}
    && (|ClausesWith(s, p)| > occLimit || |ClausesWith(s, Neg(p))| > occLimit)
  }

  lemma LimitBySize(s: State, p: Lit, occLimit: int, ps: seq<nat>, ns: seq<nat>)
    requires ListsAll(ps, s, p) && ListsAll(ns, s, Neg(p))
    ensures OverLimit(s, p, occLimit) <==> ps != [] && ns != [] && (|ps| > occLimit || |ns| > occLimit)
    ensures OverLimit(s, Neg(p), occLimit) <==> OverLimit(s, p, occLimit)
  {
    hide ClausesWith, NoDuplicates;
    assert Neg(Neg(p)) == p;
    ListSize(ps, ClausesWith(s, p));
    ListSize(ns, ClausesWith(s, Neg(p)));
  }

  /** `unmark_gate_clauses`. */
  method UnmarkGateClauses(e: Eliminator)
    requires e.gate == RefSet(e.gates)
    modifies e`gate, e`gates
    ensures e.gate == {} && e.gates == []
  {
    var gates := e.gates;
    assert gates[0..] == gates;
    for k := 0 to |gates|
      invariant forall r :: r in e.gate ==> r in gates[k..]
    {
      assert gates[k..] == [gates[k]] + gates[k+1..];
      e.gate := e.gate - {gates[k]};
    }
    assert gates[|gates|..] == [];
    e.gates := [];
  }

  lemma FoundGates(e: Eliminator, p: Lit)
    requires Found(e, p)
    ensures e.gate == RefSet(e.gates)
  {
    assert RefSet([]) == {};
  }

  lemma SearchedFacts(s: State, t: State, p: Lit)
    requires Searched(s, t, p)
    ensures Equivalent(F(s), F(t))
    ensures !t.unsat && Clean(s.literals, s.garbage, s.vals, p) ==> Clean(t.literals, t.garbage, t.vals, p)
  {
  }

  /** One attempt to eliminate a variable: the states before it, after the search for
      a gate and at the end, the sign tried, the lists searched, the clauses flagged,
      what was pushed, the answer, and the count of resolvents if there was one. */
  datatype Attempt = Attempt(
    before: State, searched: State, after: State, pivot: Lit, occs: map<Lit, seq<nat>>, gate: set<nat>,
    pushed: seq<Entry>, eliminated: bool, tally: Tally)

  /** The literal occurs in more clauses than its negation. */
  ghost predicate MoreOften(s: State, p: Lit) {
    |ClausesWith(s, p)| > |ClausesWith(s, Neg(p))|
  }

  /** The sign with fewer clauses is tried, the given one if there are as many, and
      a gate is searched for in its clauses, if there are any. */
  ghost predicate Searches(t: Attempt, p: Lit, occLimit: int, options: GateOptions) {
    if Val(p, t.before.vals) != 0 || OverLimit(t.before, p, occLimit) then t.gate == {}
    else
      && t.pivot == (if MoreOften(t.before, p) then Neg(p) else p)
      && (if options.subst && ClausesWith(t.before, t.pivot) != {} then
            && t.pivot in t.occs && Neg(t.pivot) in t.occs
            && ListsAll(t.occs[t.pivot], t.before, t.pivot) && ListsAll(t.occs[Neg(t.pivot)], t.before, Neg(t.pivot))
            && LookedAt(t.before, t.searched, t.occs, t.gate, t.pivot, options)
          else t.gate == {} && t.searched == t.before)
  }

  /** Unless units were found on the way, a gate is flagged exactly if there is one;
      it is of the first kind of which there is one. */
  ghost predicate LookedAt(s0: State, s: State, occs: map<Lit, seq<nat>>, gate: set<nat>, p: Lit,
        options: GateOptions)
    requires p in occs && Neg(p) in occs
  {
    !s.unsat && s.vals == s0.vals ==>
      && (gate != {} <==> Detects(s, occs, p, options, 5))
      && (gate != {} ==>
            if Detects(s, occs, p, options, 3) then GateOver(s.literals, gate, p, s.vals)
            else if Detects(s, occs, p, options, 4) then IsIte(s.literals, gate, p, s.vals)
            else IsXor(s.literals, gate, p, s.vals))
  }

  lemma LookedValues(e: Eliminator, s0: State, p: Lit, options: GateOptions)
    requires p in e.occs && Neg(p) in e.occs && Looked(e, s0, p, options) && (e.gates == [] <==> e.gate == {})
    ensures LookedAt(s0, e.S(), e.occs, e.gate, p, options)
  {
    hide Detects, GateOver, IsIte, IsXor;
  }

  lemma SignBySize(s: State, p: Lit, ps: seq<nat>, ns: seq<nat>)
    requires ListsAll(ps, s, p) && ListsAll(ns, s, Neg(p))
    ensures MoreOften(s, p) <==> |ps| > |ns|
    ensures |ps| > |ns| ==> (ClausesWith(s, Neg(p)) != {} <==> |ns| > 0)
    ensures ClausesWith(s, p) != {} <==> |ps| > 0
  {
    hide ClausesWith, NoDuplicates;
    ListSize(ps, ClausesWith(s, p));
    ListSize(ns, ClausesWith(s, Neg(p)));
  }

  /** No gate was used, or the one used forces the pivot. */
  ghost predicate Usable(t: Attempt) {
    t.gate == {} || GateOver(t.before.literals, t.gate, t.pivot, t.searched.vals)
  }

  /** No clause that was flagged had a true literal. */
  ghost predicate Unsatisfied(t: Attempt) {
    NoneSatisfied(t.before.literals, t.gate, t.searched.vals)
  }

  /** The resolvents are counted: the variable has no value, it does not occur too
      often, and the search for a gate has neither assigned it nor failed. */
  ghost predicate Tries(t: Attempt, occLimit: int) {
    && Val(t.pivot, t.before.vals) == 0 && !OverLimit(t.before, t.pivot, occLimit)
    && !t.searched.unsat && Val(t.pivot, t.searched.vals) == 0
  }

  /** The variable is eliminated exactly if its resolvents are counted, the count
      neither assigns it nor fails, and they do not exceed the limits. */
  ghost predicate Decided(t: Attempt, occLimit: int, elimBound: int, clauseLimit: nat) {
    && Since(t.before, t.searched)
    && (Val(t.pivot, t.before.vals) != 0 || OverLimit(t.before, t.pivot, occLimit) ==> t.searched == t.before)
    && (!Tries(t, occLimit) ==> !t.eliminated && t.after == t.searched)
    && (Tries(t, occLimit) ==>
          && t.tally.w.start == t.searched && t.tally.w.p == t.pivot
          && t.tally.w.gate == t.gate && t.tally.w.substitute == (t.gate != {})
          && ListsAll(t.tally.w.ps, t.before, t.pivot) && ListsAll(t.tally.w.ns, t.before, Neg(t.pivot))
          && Tallied(t.tally, elimBound, clauseLimit)
          && (t.eliminated <==> !t.tally.after.unsat && Val(t.pivot, t.tally.after.vals) == 0 &&
                                !Exceeds(t.tally, elimBound, clauseLimit)))
    && (Tries(t, occLimit) ==> Since(t.tally.after, t.after) && (!t.eliminated ==> t.after == t.tally.after))
    && (t.eliminated ==>
          FromPairs(t.tally.after, t.after, t.gate, t.gate != {}, t.tally.w.ps, t.tally.w.ns, t.pivot))
    && (t.eliminated && !t.after.unsat ==> Gone(t.after.literals, t.after.garbage, t.after.vals, t.pivot))
    && (!t.eliminated ==> t.pushed == [])
  }

  /** The clauses flagged are live clauses with the pivot, and a gate up to
      assigned literals.  Models are kept, and if the gate is usable the pushed
      entries restore every model; without satisfied clauses it is. */
  ghost predicate Sound(t: Attempt, options: GateOptions) {
    && (forall v :: v in t.before.vals ==> v in t.searched.vals && t.searched.vals[v] == t.before.vals[v])
    && (forall r :: r in t.gate ==> r in t.before.literals && r !in t.before.garbage
                                    && (t.pivot in t.before.literals[r] || Neg(t.pivot) in t.before.literals[r]))
    && (|| Usable(t)
        || (options.ites && IsIte(t.before.literals, t.gate, t.pivot, t.searched.vals))
        || (options.xors && IsXor(t.before.literals, t.gate, t.pivot, t.searched.vals)))
    && (forall m: Model :: Models(m, F(t.before)) ==> Models(m, F(t.after)))
    && (Usable(t) ==> Reconstructs(F(t.after), t.pushed, F(t.before)))
    && (Clean(t.before.literals, t.before.garbage, t.before.vals, t.pivot) ==> Unsatisfied(t))
  }

  /** When the gate is usable: for if-then-else and parity exactly without
      satisfied clauses, and always for the other kinds. */
  lemma WhenUsable(t: Attempt, options: GateOptions)
    requires Sound(t, options)
    ensures Unsatisfied(t) ==> Usable(t)
    ensures Clean(t.before.literals, t.before.garbage, t.before.vals, t.pivot) ==> Usable(t)
    ensures !options.ites && !options.xors ==> Usable(t)
    ensures
      || Usable(t)
      || IsIte(t.before.literals, t.gate, t.pivot, t.searched.vals)
      || IsXor(t.before.literals, t.gate, t.pivot, t.searched.vals)
  {
    hide IsIte, IsXor, GateOver, NoneSatisfied, Clean, F, Models, Reconstructs;
    if !Usable(t) {
      ShapesAreGates(t.before.literals, t.gate, t.pivot, t.searched.vals);
    }
  }

  /** `try_to_eliminate_variable`. */
  method TryToEliminate(e: Eliminator, pivot0: Lit, occLimit: int, elimBound: int, clauseLimit: nat,
        options: GateOptions)
    returns (eliminated: bool, ghost attempt: Attempt)
    requires Ready(e, pivot0) && !e.unsat && e.clause == []
    modifies e`literals, e`garbage, e`occs, e`vals, e`unsat, e`next, e`clause, e`marks, e`markedStack, e`gate, e`gates,
             e`extension
    ensures Ready(e, pivot0) && e.clause == []
    ensures attempt.before == old(e.S()) && attempt.after == e.S() && Var(attempt.pivot) == Var(pivot0)
    ensures Sound(attempt, options) && e.extension == old(e.extension) + attempt.pushed
    ensures attempt.eliminated == eliminated && Decided(attempt, occLimit, elimBound, clauseLimit)
    ensures Searches(attempt, pivot0, occLimit, options)
    ensures !options.subst ==> attempt.gate == {}
  {
    hide F, Connected, Searched, Clean, NoneSatisfied, Found, IsGate, Replay, Models, Equivalent, Sound, Decided,
         OverLimit, ListsAll, MoreOften, ClausesWith, LookedAt;
    eliminated, attempt := false, NoAttempt(e.S(), pivot0);
    NothingPushed(e.S(), pivot0, options);
    if Val(pivot0, e.vals) != 0 {
      NothingDecided(e.S(), pivot0, occLimit, elimBound, clauseLimit);
      return;
    }
    var pos := FlushOccs(e, pivot0);
    var neg := FlushOccs(e, Neg(pivot0));
    BothSigns(e.literals, e.garbage, e.vals, pivot0);
    LimitBySize(e.S(), pivot0, occLimit, e.occs[pivot0], e.occs[Neg(pivot0)]);
    SignBySize(e.S(), pivot0, e.occs[pivot0], e.occs[Neg(pivot0)]);
    var pivot := pivot0;
    if pos > neg {
      pivot := Neg(pivot0);
      pos, neg := neg, pos;
    }
    if pos > 0 && neg > occLimit {
      NothingDecided(e.S(), pivot0, occLimit, elimBound, clauseLimit);
      return;
    }
    eliminated, attempt := TryPivot(e, pivot, pos, occLimit, elimBound, clauseLimit, options);
    BothSigns(e.literals, e.garbage, e.vals, pivot0);
  }

  lemma NothingDecided(s: State, p: Lit, occLimit: int, elimBound: int, clauseLimit: nat)
    requires Val(p, s.vals) != 0 || OverLimit(s, p, occLimit)
    ensures Decided(NoAttempt(s, p), occLimit, elimBound, clauseLimit)
  {
    hide OverLimit;
    SinceItself(s);
  }

  /** The part after the sign of the pivot has been chosen. */
  method TryPivot(e: Eliminator, pivot: Lit, pos: nat, ghost occLimit: int, elimBound: int, clauseLimit: nat,
        options: GateOptions)
    returns (eliminated: bool, ghost attempt: Attempt)
    requires Ready(e, pivot) && !e.unsat && e.clause == [] && Val(pivot, e.vals) == 0
    requires ListsAll(e.occs[pivot], e.S(), pivot) && ListsAll(e.occs[Neg(pivot)], e.S(), Neg(pivot))
    requires !OverLimit(e.S(), pivot, occLimit) && (pos > 0 <==> ClausesWith(e.S(), pivot) != {})
    modifies e`literals, e`garbage, e`occs, e`vals, e`unsat, e`next, e`clause, e`marks, e`markedStack, e`gate, e`gates,
             e`extension
    ensures Ready(e, pivot) && e.clause == []
    ensures attempt.before == old(e.S()) && attempt.after == e.S() && attempt.pivot == pivot
    ensures Sound(attempt, options) && e.extension == old(e.extension) + attempt.pushed
    ensures attempt.eliminated == eliminated && Decided(attempt, occLimit, elimBound, clauseLimit)
    ensures if options.subst && pos > 0 then
              && pivot in attempt.occs && Neg(pivot) in attempt.occs
              && ListsAll(attempt.occs[pivot], old(e.S()), pivot)
              && ListsAll(attempt.occs[Neg(pivot)], old(e.S()), Neg(pivot))
              && LookedAt(old(e.S()), attempt.searched, attempt.occs, attempt.gate, pivot, options)
            else
              attempt.gate == {} && attempt.searched == old(e.S())
  {
    hide F, Connected, Searched, Clean, NoneSatisfied, Found, IsGate, Replay, Models, Equivalent, Gone, GateOver, Sound,
         Shaped, RefSet, Restores, FlaggedIn, Looked, Decided, OverLimit, ListsAll, Tallied, Exceeds, Since, LookedAt,
         ClausesWith, FromPairs;
    eliminated := false;
    ghost var s0, es: seq<Entry> := e.S(), [];
    SearchedNot(s0, pivot);
    NoneFound(e, pivot);
    if pos > 0 {
      FindGateClauses(e, pivot, options);
    }
    ghost var s1, flagged := e.S(), e.gate;
    ghost var tally := NoAttempt(s1, pivot).tally;
    SearchedFacts(s0, s1, pivot);
    SearchedSince(s0, s1, pivot);
    FoundGates(e, pivot);
    ghost var usable := flagged == {} || GateOver(s1.literals, flagged, pivot, s1.vals);
    FlaggedFacts(e, s0, pivot, options);
    if options.subst && pos > 0 {
      LookedValues(e, s0, pivot, options);
    }
    ghost var occs := e.occs;
    EquivalentRestores(s0, s1, usable);
    if !e.unsat && Val(pivot, e.vals) == 0 {
      eliminated, es, tally := EliminatePivot(e, pivot, elimBound, clauseLimit, usable);
      RestoresAfter(s0, s1, e.S(), es, usable);
    }
    UnmarkGateClauses(e);
    attempt := Attempt(s0, s1, e.S(), pivot, occs, flagged, es, eliminated, tally);
    AttemptSound(attempt, usable, options);
    AttemptDecided(attempt, occLimit, elimBound, clauseLimit);
  }

  lemma SearchedSince(s: State, t: State, p: Lit)
    requires Searched(s, t, p)
    ensures Since(s, t)
  {
    SearchedKeeps(s, t, p);
  }

  /** The resolvents are counted unless the search for a gate has failed. */
  lemma AttemptDecided(t: Attempt, occLimit: int, elimBound: int, clauseLimit: nat)
    requires Since(t.before, t.searched) && Val(t.pivot, t.before.vals) == 0 && !OverLimit(t.before, t.pivot, occLimit)
    requires t.searched.unsat || Val(t.pivot, t.searched.vals) != 0 ==>
      !t.eliminated && t.after == t.searched && t.pushed == []
    requires !t.searched.unsat && Val(t.pivot, t.searched.vals) == 0 ==>
      && t.tally.w.start == t.searched && t.tally.w.p == t.pivot
      && t.tally.w.gate == t.gate && t.tally.w.substitute == (t.gate != {})
      && ListsAll(t.tally.w.ps, t.before, t.pivot) && ListsAll(t.tally.w.ns, t.before, Neg(t.pivot))
      && Tallied(t.tally, elimBound, clauseLimit) && Since(t.tally.after, t.after)
      && (t.eliminated <==> !t.tally.after.unsat && Val(t.pivot, t.tally.after.vals) == 0 &&
                            !Exceeds(t.tally, elimBound, clauseLimit))
      && (!t.eliminated ==> t.after == t.tally.after && t.pushed == [])
      && (t.eliminated ==>
            FromPairs(t.tally.after, t.after, t.gate, t.gate != {}, t.tally.w.ps, t.tally.w.ns, t.pivot))
      && (t.eliminated && !t.after.unsat ==> Gone(t.after.literals, t.after.garbage, t.after.vals, t.pivot))
    ensures Decided(t, occLimit, elimBound, clauseLimit)
  {
    hide Since, OverLimit, ListsAll, Tallied, Exceeds, Gone, FromPairs;
  }

  function NoAttempt(s: State, p: Lit): Attempt {
    Attempt(s, s, s, p, map[], {}, [], false, Tally(Sweep(s, {}, {}, false, [], [], p), map[], s))
  }

  lemma NothingPushed(s: State, p: Lit, options: GateOptions)
    ensures Sound(NoAttempt(s, p), options)
  {
  }

  /** What is known of the clauses a search has flagged. */
  lemma FlaggedFacts(e: Eliminator, s0: State, pivot: Lit, options: GateOptions)
    requires Found(e, pivot) && e.Valid() && Searched(s0, e.S(), pivot)
    requires e.gates != [] ==> Shaped(e, pivot, options)
    ensures FlaggedIn(s0, pivot, e.gate, e.vals, options)
    ensures e.gates != [] && GateOver(e.literals, e.gate, pivot, e.vals) ==> IsGate(e.S(), e.gate, pivot)
    ensures e.gates == [] <==> e.gate == {}
    ensures e.literals == s0.literals
  {
    hide IsGate, NoneSatisfied, Clean, F, Connected, Flagged, GateOver, IsIte, IsXor;
    SearchedFacts(s0, e.S(), pivot);
    SearchedKeeps(s0, e.S(), pivot);
    assert e.gates != [] ==> e.gates[0] in e.gate;
    if Clean(s0.literals, s0.garbage, s0.vals, pivot) && e.gates != [] {
      CleanGate(e, pivot);
    }
    assert e.gates == [] ==> NoneSatisfied(s0.literals, e.gate, e.vals) by {
      NoneInEmpty(s0.literals, e.vals);
    }
    if e.gates != [] && GateOver(e.literals, e.gate, pivot, e.vals) {
      FoundIsGate(e, pivot);
    }
  }

  lemma NoneInEmpty(literals: map<nat, Clause>, vals: map<int, bool>)
    ensures NoneSatisfied(literals, {}, vals)
  {
  }

  lemma SearchedKeeps(s: State, t: State, p: Lit)
    requires Searched(s, t, p)
    ensures t.literals == s.literals && s.garbage <= t.garbage
    ensures forall v :: v in s.vals ==> v in t.vals && t.vals[v] == s.vals[v]
  {
    hide Clean;
    KeepsFacts(s, t, p);
  }

  /** The part of soundness that the search for a gate establishes. */
  ghost predicate FlaggedIn(s: State, p: Lit, gate: set<nat>, vals: map<int, bool>, options: GateOptions) {
    && (forall v :: v in s.vals ==> v in vals && vals[v] == s.vals[v])
    && (forall r :: r in gate ==> r in s.literals && r !in s.garbage
                                  && (p in s.literals[r] || Neg(p) in s.literals[r]))
    && (gate == {} || GateOver(s.literals, gate, p, vals)
        || (options.ites && IsIte(s.literals, gate, p, vals)) || (options.xors && IsXor(s.literals, gate, p, vals)))
    && (Clean(s.literals, s.garbage, s.vals, p) ==> NoneSatisfied(s.literals, gate, vals))
  }

  lemma AttemptSound(t: Attempt, usable: bool, options: GateOptions)
    requires FlaggedIn(t.before, t.pivot, t.gate, t.searched.vals, options) && usable == Usable(t)
    requires Restores(t.before, t.after, t.pushed, usable)
    ensures Sound(t, options)
  {
    hide F, Clean, NoneSatisfied, GateOver, IsIte, IsXor, Models;
  }

  lemma ReadyFor(e: Eliminator, p: Lit, q: Lit)
    requires Ready(e, p) && Var(q) in e.vars
    ensures Ready(e, q)
  {
  }

  // ------------------------------------------------------------------- a round

  /** Each attempt starts from the state in which the one before it ended. */
  ghost predicate Chained(ts: seq<Attempt>, s: State, t: State) {
    if ts == [] then s == t
    else Chained(ts[..|ts|-1], s, ts[|ts|-1].before) && ts[|ts|-1].after == t
  }

  ghost function Pushed(ts: seq<Attempt>): seq<Entry> {
    if ts == [] then [] else Pushed(ts[..|ts|-1]) + ts[|ts|-1].pushed
  }

  /** A round keeps all models, and restores them if every gate was usable. */
  lemma {:induction false} RoundRestores(ts: seq<Attempt>, s: State, t: State, options: GateOptions)
    requires Chained(ts, s, t) && forall a :: a in ts ==> Sound(a, options)
    ensures forall m: Model :: Models(m, F(s)) ==> Models(m, F(t))
    ensures (forall a :: a in ts ==> Usable(a)) ==> Reconstructs(F(t), Pushed(ts), F(s))
  {
    hide F, Models, Usable, Replay;
    if ts != [] {
      var rest, a := ts[..|ts|-1], ts[|ts|-1];
      RoundRestores(rest, s, a.before, options);
      assert a in ts && forall b :: b in rest ==> b in ts;
      if forall b :: b in ts ==> Usable(b) {
        ReconstructsCompose(F(s), Pushed(rest), F(a.before), a.pushed, F(t));
      }
    } else {
      NothingYet(F(s));
    }
  }

  lemma NothingYet(f: Formula)
    ensures Reconstructs(f, [], f)
  {
  }

  lemma MoreAttempts(ts: seq<Attempt>, a: Attempt, s: State)
    requires Chained(ts, s, a.before)
    ensures Chained(ts + [a], s, a.after) && Pushed(ts + [a]) == Pushed(ts) + a.pushed
  {
    var more := ts + [a];
    assert more[..|more|-1] == ts;
  }

  /** When a round restores every model: always without the searches that skip
      assigned literals, and otherwise if no clause flagged was satisfied, as it is
      when satisfied clauses with the pivot had been dropped before each attempt. */
  lemma RoundConditions(ts: seq<Attempt>, s: State, t: State, options: GateOptions)
    requires Chained(ts, s, t) && forall a :: a in ts ==> Sound(a, options)
    ensures (forall a :: a in ts ==> Unsatisfied(a)) ==> Reconstructs(F(t), Pushed(ts), F(s))
    ensures (forall a :: a in ts ==> Clean(a.before.literals, a.before.garbage, a.before.vals, a.pivot)) ==>
      Reconstructs(F(t), Pushed(ts), F(s))
    ensures !options.ites && !options.xors ==> Reconstructs(F(t), Pushed(ts), F(s))
  {
    hide F, Reconstructs, Usable, Unsatisfied, Clean, Sound, Chained, Pushed;
    RoundRestores(ts, s, t, options);
    forall a | a in ts
      ensures Unsatisfied(a) ==> Usable(a)
      ensures Clean(a.before.literals, a.before.garbage, a.before.vals, a.pivot) ==> Usable(a)
      ensures !options.ites && !options.xors ==> Usable(a)
    {
      WhenUsable(a, options);
    }
  }

  /** The loop of `elim_round` over the variables it comes to, whatever the schedule
      makes of their order and number. */
  method EliminateScheduled(e: Eliminator, schedule: seq<Lit>, occLimit: int, elimBound: int, clauseLimit: nat,
        options: GateOptions)
    returns (ghost attempts: seq<Attempt>)
    requires schedule != [] && (forall p :: p in schedule ==> Var(p) in e.vars)
    requires Ready(e, schedule[0]) && !e.unsat && e.clause == []
    modifies e`literals, e`garbage, e`occs, e`vals, e`unsat, e`next, e`clause, e`marks, e`markedStack, e`gate, e`gates,
             e`extension
    ensures Ready(e, schedule[0]) && e.clause == []
    ensures |attempts| <= |schedule| && (!e.unsat ==> |attempts| == |schedule|)
    ensures forall i :: 0 <= i < |attempts| ==>
      && Sound(attempts[i], options) && Var(attempts[i].pivot) == Var(schedule[i])
      && Decided(attempts[i], occLimit, elimBound, clauseLimit)
      && Searches(attempts[i], schedule[i], occLimit, options)
    ensures Chained(attempts, old(e.S()), e.S()) && e.extension == old(e.extension) + Pushed(attempts)
    ensures forall m: Model :: Models(m, F(old(e.S()))) ==> Models(m, F(e.S()))
    ensures (forall a :: a in attempts ==> Usable(a)) ==> Reconstructs(F(e.S()), Pushed(attempts), F(old(e.S())))
    ensures (forall a :: a in attempts ==> Unsatisfied(a)) ==> Reconstructs(F(e.S()), Pushed(attempts), F(old(e.S())))
    ensures !options.ites && !options.xors ==> Reconstructs(F(e.S()), Pushed(attempts), F(old(e.S())))
  {
    hide F, Connected, Clean, Models, Ready, Gone, Reconstructs, Sound, Usable, Unsatisfied, Chained, Pushed, Decided,
         Searches;
    attempts := [];
    NoAttempts(e.S());
    ghost var s0 := e.S();
    var i := 0;
    while i < |schedule| && !e.unsat
      invariant 0 <= i <= |schedule| && |attempts| == i
      invariant Ready(e, schedule[0]) && e.clause == [] && e.extension == old(e.extension) + Pushed(attempts)
      invariant Chained(attempts, s0, e.S())
      invariant forall k :: 0 <= k < i ==>
        && Sound(attempts[k], options) && Var(attempts[k].pivot) == Var(schedule[k])
        && Decided(attempts[k], occLimit, elimBound, clauseLimit)
        && Searches(attempts[k], schedule[k], occLimit, options)
    {
      ReadyFor(e, schedule[0], schedule[i]);
      ghost var attempt: Attempt;
      var eliminated: bool;
      eliminated, attempt := TryToEliminate(e, schedule[i], occLimit, elimBound, clauseLimit, options);
      MoreAttempts(attempts, attempt, s0);
      attempts := attempts + [attempt];
      ReadyFor(e, schedule[i], schedule[0]);
      i := i + 1;
    }
    RoundRestores(attempts, s0, e.S(), options);
    RoundConditions(attempts, s0, e.S(), options);
  }

  lemma NoAttempts(s: State)
    ensures Chained([], s, s) && Pushed([]) == []
  {
  }
}

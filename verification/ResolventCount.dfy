/** Whether a variable may be eliminated: the resolvents on it are counted and
    compared with the number of clauses they replace. */
module ResolventCount {
  import opened Logic
  import opened Reconstruction
  import opened Clauses
  import opened Elimination
  import opened Elim
  import opened Eliminate

  /** What a count of resolvents ranges over: the clauses with the pivot and with
      its negation, as they are when the count starts. */
  datatype Sweep = Sweep(start: State, vars: set<int>, gate: set<nat>, substitute: bool, ps: seq<nat>, ns: seq<nat>,
                         p: Lit)

  /** A finished count: the pairs counted, each with the state in which its resolvent
      was needed, and the state at the end. */
  datatype Tally = Tally(w: Sweep, kept: map<(nat, nat), State>, after: State)

  /** Clauses keep their literals, garbage and values only grow. */
  ghost predicate Since(s: State, t: State) {
    && (forall r :: r in s.literals ==> r in t.literals && t.literals[r] == s.literals[r])
    && s.garbage <= t.garbage && forall v :: v in s.vals ==> v in t.vals && t.vals[v] == s.vals[v]
  }

  /** Positive clause `x.0` and negative clause `x.1` have to be resolved. */
  predicate Due(w: Sweep, x: (nat, nat)) {
    && x.0 < |w.ps| && x.1 < |w.ns| && w.ps[x.0] !in w.start.garbage && w.ns[x.1] !in w.start.garbage
    && Pairs(w.gate, w.substitute, w.ps[x.0], w.ns[x.1])
  }

  predicate Before(x: (nat, nat), i: nat, j: nat) {
    x.0 < i || (x.0 == i && x.1 < j)
  }

  /** In state `s` the pair has a resolvent of two unassigned literals or more that is
      neither satisfied nor a tautology. */
  ghost predicate NeededIn(w: Sweep, s: State, x: (nat, nat)) {
    && Due(w, x) && w.ps[x.0] in s.literals && w.ns[x.1] in s.literals
    && w.ps[x.0] !in s.garbage && w.ns[x.1] !in s.garbage
    && exists r :: Resolvent(r, F(s), s.literals[w.ps[x.0]], s.literals[w.ns[x.1]], w.p, s.vals, w.vars)
  }

  /** How many unassigned literals it has. */
  ghost function ResolventSize(w: Sweep, s: State, x: (nat, nat)): nat
    requires x.0 < |w.ps| && x.1 < |w.ns| && w.ps[x.0] in s.literals && w.ns[x.1] in s.literals
  {
    |(Actual(s.literals[w.ps[x.0]], s.vals) + Actual(s.literals[w.ns[x.1]], s.vals)) - {w.p, Neg(w.p)}|
  }

  /** The pairs counted before position `(i, j)`, up to state `s`. */
  ghost predicate Counted(w: Sweep, s: State, kept: map<(nat, nat), State>, i: nat, j: nat) {
    forall x :: x in kept ==>
      Before(x, i, j) && NeededIn(w, kept[x], x) && Since(w.start, kept[x]) && Since(kept[x], s)
  }

  /** For the other pairs that are due the resolvent holds anyway. */
  ghost predicate Spared(w: Sweep, s: State, kept: map<(nat, nat), State>, i: nat, j: nat) {
    forall x: (nat, nat) :: Due(w, x) && Before(x, i, j) && x !in kept ==> PairResolved(s, w.ps[x.0], w.ns[x.1], w.p)
  }

  /** No resolvent counted was longer than the limit. */
  ghost predicate AllShort(w: Sweep, kept: map<(nat, nat), State>, sizeLimit: nat) {
    forall x :: x in kept ==> Short(w, kept[x], x, sizeLimit)
  }

  ghost predicate Short(w: Sweep, s: State, x: (nat, nat), sizeLimit: nat) {
    NeededIn(w, s, x) ==> ResolventSize(w, s, x) <= sizeLimit
  }

  /** Too many resolvents for `|ps| + |ns|` clauses, or one that is too long. */
  ghost predicate Exceeds(t: Tally, elimBound: int, sizeLimit: nat) {
    if t.w.ps == [] || t.w.ns == [] then elimBound < 0
    else
      || (t.kept != map[] && |t.kept| > |t.w.ps| + |t.w.ns| + elimBound)
      || !AllShort(t.w, t.kept, sizeLimit)
  }

  /** What a count says of the pairs; all of them have been looked at unless it was
      broken off. */
  ghost predicate Tallied(t: Tally, elimBound: int, sizeLimit: nat) {
    && Counted(t.w, t.after, t.kept, |t.w.ps|, 0) && Since(t.w.start, t.after)
    && (t.w.ps == [] || t.w.ns == [] ==> t.after == t.w.start && t.kept == map[])
    && (!t.after.unsat && Val(t.w.p, t.after.vals) == 0 && !Exceeds(t, elimBound, sizeLimit) ==>
          Spared(t.w, t.after, t.kept, |t.w.ps|, 0))
  }

  lemma SinceTrans(s: State, t: State, u: State)
    requires Since(s, t) && Since(t, u)
    ensures Since(s, u)
  {
  }

  lemma MovesSince(s: State, t: State, p: Lit)
    requires Moves(s, t, p)
    ensures Since(s, t)
  {
    MovesFacts(s, t, p);
  }

  lemma CountedKept(w: Sweep, s: State, t: State, kept: map<(nat, nat), State>, i: nat, j: nat)
    requires Counted(w, s, kept, i, j) && Since(s, t)
    ensures Counted(w, t, kept, i, j)
  {
    hide NeededIn, Since;
    forall x | x in kept
      ensures Since(kept[x], t)
    {
      SinceTrans(kept[x], s, t);
    }
  }

  lemma SparedKept(w: Sweep, s: State, t: State, kept: map<(nat, nat), State>, i: nat, j: nat)
    requires Moves(s, t, w.p) && Val(w.p, t.vals) == 0 && Spared(w, s, kept, i, j)
    requires Sides(s.literals, w.ps, w.p) && Sides(s.literals, w.ns, Neg(w.p))
    ensures Spared(w, t, kept, i, j)
  {
    hide Moves;
    forall x: (nat, nat) | Due(w, x) && Before(x, i, j) && x !in kept
      ensures PairResolved(t, w.ps[x.0], w.ns[x.1], w.p)
    {
      PairKept(s, t, w.ps[x.0], w.ns[x.1], w.p);
    }
  }

  /** One more pair is counted. */
  lemma CountMore(w: Sweep, s: State, kept: map<(nat, nat), State>, i: nat, j: nat, sizeLimit: nat)
    requires Counted(w, s, kept, i, j) && Spared(w, s, kept, i, j) && NeededIn(w, s, (i, j)) && Since(w.start, s)
    ensures var more := kept[(i, j) := s];
      && Counted(w, s, more, i, j + 1) && Spared(w, s, more, i, j + 1) && |more| == |kept| + 1
      && (AllShort(w, more, sizeLimit) <==> AllShort(w, kept, sizeLimit) && Short(w, s, (i, j), sizeLimit))
  {
    hide PairResolved, NeededIn, Due, Short, Since;
    var more := kept[(i, j) := s];
    assert !Before((i, j), i, j) && (i, j) !in kept;
    assert more.Keys == kept.Keys + {(i, j)};
    assert Since(s, s) by { SinceItself(s); }
    ShortMore(w, kept, (i, j), s, sizeLimit);
  }

  lemma SinceItself(s: State)
    ensures Since(s, s)
  {
  }

  lemma ShortMore(w: Sweep, kept: map<(nat, nat), State>, x: (nat, nat), s: State, sizeLimit: nat)
    requires x !in kept
    ensures AllShort(w, kept[x := s], sizeLimit) <==> AllShort(w, kept, sizeLimit) && Short(w, s, x, sizeLimit)
  {
    hide Short;
    var more := kept[x := s];
    if AllShort(w, more, sizeLimit) {
      assert Short(w, more[x], x, sizeLimit);
      forall y | y in kept
        ensures Short(w, kept[y], y, sizeLimit)
      {
        assert more[y] == kept[y];
      }
    }
  }

  /** One more pair is passed over. */
  lemma SpareMore(w: Sweep, s: State, kept: map<(nat, nat), State>, i: nat, j: nat)
    requires Counted(w, s, kept, i, j) && Spared(w, s, kept, i, j)
    requires Due(w, (i, j)) ==> PairResolved(s, w.ps[i], w.ns[j], w.p)
    ensures Counted(w, s, kept, i, j + 1) && Spared(w, s, kept, i, j + 1)
  {
    hide PairResolved, NeededIn, Pairs;
  }

  lemma NextRow(w: Sweep, s: State, kept: map<(nat, nat), State>, i: nat)
    requires Counted(w, s, kept, i, |w.ns|) && Spared(w, s, kept, i, |w.ns|)
    ensures Counted(w, s, kept, i + 1, 0) && Spared(w, s, kept, i + 1, 0)
  {
    hide PairResolved, NeededIn;
    forall x: (nat, nat) | Due(w, x)
      ensures Before(x, i + 1, 0) <==> Before(x, i, |w.ns|)
    {
    }
  }

  lemma CountedLater(w: Sweep, s: State, kept: map<(nat, nat), State>, i: nat, j: nat)
    requires Counted(w, s, kept, i, j)
    ensures Counted(w, s, kept, |w.ps|, 0)
  {
    hide Pairs, Resolvent, F, Since;
    forall x | x in kept
      ensures Before(x, |w.ps|, 0)
    {
      assert NeededIn(w, kept[x], x);
    }
  }

  lemma NothingCounted(w: Sweep, s: State, sizeLimit: nat)
    ensures Counted(w, s, map[], 0, 0) && Counted(w, s, map[], |w.ps|, 0) && Spared(w, s, map[], 0, 0)
    ensures AllShort(w, map[], sizeLimit)
  {
  }

  lemma IsNeeded(w: Sweep, s: State, i: nat, j: nat, r: seq<Lit>, sizeLimit: nat)
    requires Due(w, (i, j)) && w.ps[i] in s.literals && w.ns[j] in s.literals
    requires w.ps[i] !in s.garbage && w.ns[j] !in s.garbage
    requires Resolvent(r, F(s), s.literals[w.ps[i]], s.literals[w.ns[j]], w.p, s.vals, w.vars)
    ensures NeededIn(w, s, (i, j)) && (Short(w, s, (i, j), sizeLimit) <==> |r| <= sizeLimit)
  {
    hide Actual;
    SizeOf(r);
  }

  /** Resolve one pair, propagating units at once, and measure the resolvent. */
  method CountPair(e: Eliminator, pivot: Lit, c: nat, d: nat, substitute: bool, ghost s0: State)
    returns (needed: bool, size: nat, ghost r: seq<Lit>)
    requires e.Valid() && e.clause == [] && Val(pivot, e.vals) == 0 && !e.unsat && Moves(s0, e.S(), pivot)
    requires c in s0.literals && pivot in s0.literals[c] && Neg(pivot) !in s0.literals[c]
    requires d in s0.literals && Neg(pivot) in s0.literals[d] && pivot !in s0.literals[d]
    modifies e`literals, e`garbage, e`occs, e`vals, e`unsat, e`next, e`clause
    ensures e.Valid() && e.clause == [] && Moves(old(e.S()), e.S(), pivot) && SameLists(e.occs, old(e.occs), pivot)
    ensures needed ==>
      && e.S() == old(e.S()) && c !in e.garbage && d !in e.garbage && Pairs(e.gate, substitute, c, d)
      && c !in s0.garbage && d !in s0.garbage && c in e.literals && d in e.literals && |r| == size
      && Resolvent(r, F(e.S()), e.literals[c], e.literals[d], pivot, e.vals, e.vars)
    ensures !needed && !e.unsat && Val(pivot, e.vals) == 0 ==>
      (c !in s0.garbage && d !in s0.garbage && Pairs(e.gate, substitute, c, d) ==> PairResolved(e.S(), c, d, pivot))
  {
    hide Connected, Moves, Val, SameLists, Resolvent, ResolventHolds, F, Implied;
    ghost var s1 := e.S();
    MovesFacts(s0, s1, pivot);
    MovesNot(s1, pivot);
    ListsUnchanged(e.occs, pivot);
    needed, size, r := false, 0, [];
    if c in e.garbage || d in e.garbage {
      if c !in s0.garbage && d !in s0.garbage {
        DroppedResolved(s0, s1, c, d, pivot);
      }
      return;
    }
    if substitute && (c in e.gate) == (d in e.gate) {
      return;
    }
    needed := e.Resolve(c, pivot, d, true);
    MovesFacts(s1, e.S(), pivot);
    if needed {
      size, r := |e.clause|, e.clause;
      e.clause := [];
    }
  }

  /** Resolve one positive clause with the negative ones. */
  method CountRow(e: Eliminator, p: Lit, c: nat, ns: seq<nat>, resolvents: nat, bound: int, sizeLimit: nat,
                  ghost w: Sweep, ghost i: nat, ghost kept: map<(nat, nat), State>)
    returns (goOn: bool, count: nat, ghost more: map<(nat, nat), State>)
    requires e.Valid() && e.clause == [] && Val(p, e.vals) == 0 && !e.unsat && Moves(w.start, e.S(), p)
    requires w.vars == e.vars && w.gate == e.gate && w.substitute == (e.gates != [])
    requires i < |w.ps| && w.ps[i] == c && w.ns == ns && w.p == p
    requires Sides(w.start.literals, w.ps, w.p) && Sides(w.start.literals, w.ns, Neg(w.p))
    requires resolvents == |kept| && Counted(w, e.S(), kept, i, 0) && Spared(w, e.S(), kept, i, 0)
    requires (kept == map[] || |kept| <= bound) && AllShort(w, kept, sizeLimit)
    modifies e`literals, e`garbage, e`occs, e`vals, e`unsat, e`next, e`clause
    ensures e.Valid() && e.clause == [] && Moves(old(e.S()), e.S(), p) && SameLists(e.occs, old(e.occs), p)
    ensures count == |more|
    ensures goOn ==>
      && Val(p, e.vals) == 0 && !e.unsat && Counted(w, e.S(), more, i, |ns|) && Spared(w, e.S(), more, i, |ns|)
      && (more == map[] || |more| <= bound) && AllShort(w, more, sizeLimit)
    ensures !goOn ==>
      && Counted(w, e.S(), more, |w.ps|, 0)
      && (e.unsat || Val(p, e.vals) != 0 || !AllShort(w, more, sizeLimit) || (more != map[] && |more| > bound))
  {
    hide Connected, Moves, Val, SameLists, Sides, Resolvent, PairResolved, F, Counted, Spared, AllShort, Short,
         NeededIn, Since;
    var substitute := e.gates != [];
    ghost var s0, s1, occs1 := w.start, e.S(), e.occs;
    count, more := resolvents, kept;
    MovesNot(s1, p);
    ListsUnchanged(e.occs, p);
    for j := 0 to |ns|
      invariant e.Valid() && e.clause == [] && SameLists(e.occs, occs1, p)
      invariant Moves(s1, e.S(), p) && Moves(s0, e.S(), p)
      invariant Val(p, e.vals) == 0 && !e.unsat
      invariant count == |more| && Counted(w, e.S(), more, i, j) && Spared(w, e.S(), more, i, j)
      invariant (more == map[] || |more| <= bound) && AllShort(w, more, sizeLimit)
    {
      ghost var s2, occs2 := e.S(), e.occs;
      SideAt(s0.literals, w.ps, p, i);
      SideAt(s0.literals, ns, Neg(p), j);
      assert Neg(Neg(p)) == p;
      var needed, size, r := CountPair(e, p, c, ns[j], substitute, s0);
      MovesTrans(s1, s2, e.S(), p);
      MovesTrans(s0, s2, e.S(), p);
      MovesSince(s0, s2, p);
      MovesSince(s2, e.S(), p);
      ListsTrans(e.occs, occs2, occs1, p);
      if needed {
        IsNeeded(w, s2, i, j, r, sizeLimit);
        CountMore(w, s2, more, i, j, sizeLimit);
        more := more[(i, j) := s2];
        count := count + 1;
        assert (i, j) in more;
        if size > sizeLimit || count > bound {
          CountedLater(w, s2, more, i, j + 1);
          return false, count, more;
        }
      } else {
        CountedKept(w, s2, e.S(), more, i, j);
        if e.unsat || Val(p, e.vals) != 0 {
          CountedLater(w, e.S(), more, i, j);
          return false, count, more;
        }
        SidesKept(s0, s2, w.ps, p, p);
        SidesKept(s0, s2, ns, Neg(p), p);
        SparedKept(w, s2, e.S(), more, i, j);
        SpareMore(w, e.S(), more, i, j);
      }
    }
    goOn := true;
  }

  /** Resolve all pairs, until there are too many resolvents. */
  method CountRows(e: Eliminator, p: Lit, ps: seq<nat>, ns: seq<nat>, bound: int, sizeLimit: nat, ghost w: Sweep)
    returns (res: bool, ghost kept: map<(nat, nat), State>)
    requires e.Valid() && e.clause == [] && Val(p, e.vals) == 0 && !e.unsat && Moves(w.start, e.S(), p)
    requires Counted(w, e.S(), map[], 0, 0) && Spared(w, e.S(), map[], 0, 0) && AllShort(w, map[], sizeLimit)
    requires w.vars == e.vars && w.gate == e.gate && w.substitute == (e.gates != [])
    requires w.ps == ps && w.ns == ns && w.p == p
    requires Sides(w.start.literals, ps, p) && Sides(w.start.literals, ns, Neg(p))
    modifies e`literals, e`garbage, e`occs, e`vals, e`unsat, e`next, e`clause
    ensures e.Valid() && e.clause == [] && Moves(w.start, e.S(), p) && SameLists(e.occs, old(e.occs), p)
    ensures Counted(w, e.S(), kept, |ps|, 0)
    ensures res ==>
      && Val(p, e.vals) == 0 && !e.unsat && Spared(w, e.S(), kept, |ps|, 0)
      && (kept == map[] || |kept| <= bound) && AllShort(w, kept, sizeLimit)
    ensures !res ==>
      e.unsat || Val(p, e.vals) != 0 || !AllShort(w, kept, sizeLimit) || (kept != map[] && |kept| > bound)
  {
    hide Connected, Moves, Val, SameLists, Sides, Resolvent, PairResolved, F, Counted, Spared, AllShort, NeededIn,
         Since, Short;
    ghost var s0, occs0 := w.start, e.occs;
    kept := map[];
    ListsUnchanged(e.occs, p);
    var resolvents := 0;
    for i := 0 to |ps|
      invariant e.Valid() && e.clause == [] && Moves(s0, e.S(), p) && SameLists(e.occs, occs0, p)
      invariant Val(p, e.vals) == 0 && !e.unsat
      invariant resolvents == |kept| && Counted(w, e.S(), kept, i, 0) && Spared(w, e.S(), kept, i, 0)
      invariant (kept == map[] || |kept| <= bound) && AllShort(w, kept, sizeLimit)
    {
      ghost var s1, occs1 := e.S(), e.occs;
      var goOn: bool;
      goOn, resolvents, kept := CountRow(e, p, ps[i], ns, resolvents, bound, sizeLimit, w, i, kept);
      MovesTrans(s0, s1, e.S(), p);
      ListsTrans(e.occs, occs1, occs0, p);
      if !goOn {
        return false, kept;
      }
      NextRow(w, e.S(), kept, i);
    }
    res := true;
  }

  /** `elim_resolvents_are_bounded`.  Unless a unit is found for the pivot or the
      empty clause, the answer is no exactly if the resolvents counted exceed the
      bound or the size limit; all other resolvents hold anyway. */
  method ResolventsAreBounded(e: Eliminator, pivot: Lit, elimBound: int, sizeLimit: nat)
    returns (res: bool, ghost t: Tally)
    requires e.Valid() && Val(pivot, e.vals) == 0 && !e.unsat && e.clause == [] && pivot in e.occs
    requires Neg(pivot) in e.occs
    modifies e`literals, e`garbage, e`occs, e`vals, e`unsat, e`next, e`clause
    ensures e.Valid() && e.clause == [] && Moves(old(e.S()), e.S(), pivot) && SameLists(e.occs, old(e.occs), pivot)
    ensures t.w == Sweep(old(e.S()), e.vars, e.gate, e.gates != [], old(e.occs)[pivot], old(e.occs)[Neg(pivot)], pivot)
    ensures t.after == e.S() && Tallied(t, elimBound, sizeLimit)
    ensures res <==> !e.unsat && Val(pivot, e.vals) == 0 && !Exceeds(t, elimBound, sizeLimit)
  {
    hide Connected, Moves, Val, SameLists, Sides, Resolvent, PairResolved, F, Counted, Spared, AllShort, NeededIn,
         Since, Short, Exceeds, Tallied;
    var substitute := e.gates != [];
    var ps, ns := e.occs[pivot], e.occs[Neg(pivot)];
    ghost var s0, occs0 := e.S(), e.occs;
    ghost var w := Sweep(s0, e.vars, e.gate, substitute, ps, ns, pivot);
    ghost var kept: map<(nat, nat), State> := map[];
    MovesNot(s0, pivot);
    MovesSince(s0, s0, pivot);
    ListsUnchanged(e.occs, pivot);
    NothingCounted(w, s0, sizeLimit);
    var pos, neg := |ps|, |ns|;
    if pos == 0 || neg == 0 {
      res, t := elimBound >= 0, Tally(w, kept, s0);
      NoPairs(w, s0, elimBound, sizeLimit);
      return;
    }
    SidesOf(e.literals, e.garbage, e.occs, e.vars, e.next, pivot);
    SidesOf(e.literals, e.garbage, e.occs, e.vars, e.next, Neg(pivot));
    res, kept := CountRows(e, pivot, ps, ns, pos + neg + elimBound, sizeLimit, w);
    MovesSince(s0, e.S(), pivot);
    t := Tally(w, kept, e.S());
    if res {
      AllLookedAt(t, elimBound, sizeLimit);
    } else {
      BrokenOff(t, elimBound, sizeLimit);
    }
  }

  lemma NoPairs(w: Sweep, s: State, elimBound: int, sizeLimit: nat)
    requires (w.ps == [] || w.ns == []) && s == w.start && Since(s, s)
    ensures Tallied(Tally(w, map[], s), elimBound, sizeLimit)
    ensures Exceeds(Tally(w, map[], s), elimBound, sizeLimit) <==> elimBound < 0
  {
  }

  lemma BrokenOff(t: Tally, elimBound: int, sizeLimit: nat)
    requires t.w.ps != [] && t.w.ns != [] && Counted(t.w, t.after, t.kept, |t.w.ps|, 0) && Since(t.w.start, t.after)
    requires t.after.unsat || Val(t.w.p, t.after.vals) != 0 || !AllShort(t.w, t.kept, sizeLimit) ||
      (t.kept != map[] && |t.kept| > |t.w.ps| + |t.w.ns| + elimBound)
    ensures Tallied(t, elimBound, sizeLimit)
    ensures t.after.unsat || Val(t.w.p, t.after.vals) != 0 || Exceeds(t, elimBound, sizeLimit)
  {
    hide Counted, Spared, AllShort, Since;
  }

  lemma AllLookedAt(t: Tally, elimBound: int, sizeLimit: nat)
    requires t.w.ps != [] && t.w.ns != [] && Counted(t.w, t.after, t.kept, |t.w.ps|, 0) && Since(t.w.start, t.after)
    requires Spared(t.w, t.after, t.kept, |t.w.ps|, 0) && AllShort(t.w, t.kept, sizeLimit)
    requires t.kept == map[] || |t.kept| <= |t.w.ps| + |t.w.ns| + elimBound
    ensures Tallied(t, elimBound, sizeLimit) && !Exceeds(t, elimBound, sizeLimit)
  {
    hide Counted, Spared, AllShort, Since;
  }
}

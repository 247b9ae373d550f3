/** Searching for parity gates: all clauses over the same variables whose signs
    have even parity. */
module XorGates {
  import opened Logic
  import opened Clauses
  import opened Elimination
  import opened Elim
  import opened Numbers
  import opened GateLogic
  import opened Gates
  import opened IteGates

  /** `get_clause`: the unassigned literals. */
  method GetClause(e: Eliminator, c: nat) returns (lits: Option<seq<Lit>>)
    requires c in e.literals && Proper(e.literals[c])
    ensures lits.Some? <==> c !in e.garbage
    ensures lits.Some? ==> Lits(lits.value) == Actual(e.literals[c], e.vals) && DistinctVars(lits.value)
    ensures lits.Some? ==> lits.value == Unassigned(e.literals[c], e.vals)
  {
    hide Elim.Consistent, Actual;
    if c in e.garbage {
      return None;
    }
    var f := e.literals[c];
    var l: seq<Lit> := [];
    ActualNone(f, e.vals);
    for k := 0 to |f|
      invariant NoDuplicates(l) && Lits(l) == Actual(f[..k], e.vals) && l == Unassigned(f[..k], e.vals)
    {
      ActualStep(f, k, e.vals);
      assert f[..k+1][..k] == f[..k];
      if Val(f[k], e.vals) != 0 {
        continue;
      }
      LitsAppend(l, f[k]);
      AppendNew(l, f[k]);
      l := l + [f[k]];
    }
    assert f[..|f|] == f;
    ActualDistinct(f, l, e.vals);
    return Some(l);
  }

  lemma ActualDistinct(c: Clause, l: seq<Lit>, vals: map<int, bool>)
    requires Proper(c) && NoDuplicates(l) && Lits(l) == Actual(c, vals)
    ensures DistinctVars(l)
  {
    forall i, j | 0 <= i < j < |l|
      ensures Var(l[i]) != Var(l[j])
    {
      assert l[i] in Lits(l) && l[j] in Lits(l);
      assert l[i] in Lits(c) && l[j] in Lits(c) && l[i] != Neg(l[j]);
    }
  }

  /** `is_clause`: the unassigned literals of the clause are exactly `lits`. */
  method IsClause(e: Eliminator, c: nat, lits: seq<Lit>) returns (same: bool)
    requires c in e.literals && Proper(e.literals[c]) && NoDuplicates(lits)
    ensures same <==> c !in e.garbage && Actual(e.literals[c], e.vals) == Lits(lits)
  {
    hide Elim.Consistent, Actual;
    if c in e.garbage {
      return false;
    }
    var size := |lits|;
    var f := e.literals[c];
    SizeOf(lits);
    FewActual(f, e.vals);
    if |f| < size {
      return false;
    }
    var found := 0;
    ghost var ls: seq<Lit> := [];
    ActualNone(f, e.vals);
    for k := 0 to |f|
      invariant found == |ls| && NoDuplicates(ls) && Lits(ls) == Actual(f[..k], e.vals) && Lits(ls) <= Lits(lits)
    {
      ActualStep(f, k, e.vals);
      if Val(f[k], e.vals) != 0 {
        continue;
      }
      if f[k] !in lits {
        InActual(f, k, e.vals);
        return false;
      }
      LitsAppend(ls, f[k]);
      AppendNew(ls, f[k]);
      ls := ls + [f[k]];
      found := found + 1;
      SizeOf(ls);
      SizeOfSubset(Lits(ls), Lits(lits));
    }
    assert f[..|f|] == f;
    SizeOf(ls);
    SubsetOfSize(Lits(ls), Lits(lits));
    return found == size;
  }

  /** `find_clause`: search the first of the shortest occurrence lists. */
  method FindClause(e: Eliminator, lits: seq<Lit>) returns (found: Option<nat>)
    requires e.Valid() && lits != [] && NoDuplicates(lits) && forall l :: l in lits ==> l in e.occs
    ensures found.Some? ==>
      found.value in e.literals && found.value !in e.garbage && Actual(e.literals[found.value], e.vals) == Lits(lits)
    ensures found == None ==>
      forall d :: d in e.literals && d !in e.garbage ==> Actual(e.literals[d], e.vals) != Lits(lits)
  {
    hide Elim.Consistent, Connected, Proper, Actual;
    var best, len := lits[0], |e.occs[lits[0]]|;
    for k := 1 to |lits|
      invariant best in lits
    {
      var l := |e.occs[lits[k]]|;
      if l >= len {
        continue;
      }
      len, best := l, lits[k];
    }
    ListedProper(e.literals, e.garbage, e.occs, e.vars, e.next, best);
    var os := e.occs[best];
    for k := 0 to |os|
      invariant forall j :: 0 <= j < k ==> os[j] in e.garbage || Actual(e.literals[os[j]], e.vals) != Lits(lits)
    {
      assert os[k] in os;
      var same := IsClause(e, os[k], lits);
      if same {
        return Some(os[k]);
      }
    }
    NotListed(e.literals, e.garbage, e.occs, e.vars, e.next, e.vals, best, lits);
    return None;
  }

  lemma NotListed(literals: map<nat, Clause>, garbage: set<nat>, occs: map<Lit, seq<nat>>, vars: set<int>, next: nat,
        vals: map<int, bool>,
      best: Lit, lits: seq<Lit>)
    requires Connected(literals, garbage, occs, vars, next) && best in occs && best in lits
    requires forall j :: 0 <= j < |occs[best]| && occs[best][j] in literals ==>
      occs[best][j] in garbage || Actual(literals[occs[best][j]], vals) != Lits(lits)
    ensures forall d :: d in literals && d !in garbage ==> Actual(literals[d], vals) != Lits(lits)
  {
    forall d | d in literals && d !in garbage
      ensures Actual(literals[d], vals) != Lits(lits)
    {
      assert best in Lits(lits);
      if best in literals[d] {
        var j :| 0 <= j < |occs[best]| && occs[best][j] == d;
      } else {
        assert best !in Actual(literals[d], vals);
      }
    }
  }

  /** The next sign vector of even parity, applied to the literals in place: only
      the signs that change are flipped. */
  method NextSigns(lits0: seq<Lit>, prev: nat, ghost i: nat, ghost base: seq<Lit>) returns (lits: seq<Lit>, signs: nat)
    requires prev == NthEven(i) && lits0 == Flip(base, prev)
    ensures signs == NthEven(i + 1) && lits == Flip(base, signs)
  {
    hide Bit;
    signs := prev + 1;
    AtMost(i);
    while Parity(signs)
      invariant prev < signs <= NthEven(i + 1) && forall k :: prev < k < signs ==> Parity(k)
      decreases NthEven(i + 1) - signs
    {
      signs := signs + 1;
    }
    NextEven(i, signs);
    lits := lits0;
    for j := 0 to |lits|
      invariant |lits| == |base|
      invariant forall k :: 0 <= k < j ==> lits[k] == Flip(base, signs)[k]
      invariant forall k :: j <= k < |base| ==> lits[k] == Flip(base, prev)[k]
    {
      if Bit(prev, j) != Bit(signs, j) {
        assert Neg(Neg(base[j])) == base[j];
        lits := lits[j := Neg(lits[j])];
      }
    }
  }

  lemma AtMost(i: nat)
    ensures NthEven(i) < NthEven(i + 1)
  {
  }

  // ------------------------------------------------------------------- the gate

  /** The clauses found for the sign vectors `1..n`. */
  ghost predicate Family(literals: map<nat, Clause>, garbage: set<nat>, vals: map<int, bool>, refs: seq<nat>,
        base: seq<Lit>, n: nat) {
    |refs| == n && forall i :: 0 <= i < n ==> Member(literals, garbage, vals, refs[i], base, i)
  }

  ghost predicate Member(literals: map<nat, Clause>, garbage: set<nat>, vals: map<int, bool>, r: nat, base: seq<Lit>,
        i: nat) {
    r in literals && r !in garbage && Actual(literals[r], vals) == Lits(Flip(base, NthEven(i + 1)))
  }

  lemma MemberAt(literals: map<nat, Clause>, garbage: set<nat>, vals: map<int, bool>, refs: seq<nat>, base: seq<Lit>,
        n: nat, i: nat)
    requires Family(literals, garbage, vals, refs, base, n) && i < n
    ensures refs[i] in literals && refs[i] !in garbage
    ensures Actual(literals[refs[i]], vals) == Lits(Flip(base, NthEven(i + 1)))
  {
    hide NthEven, Flip, Actual, Lits;
    assert Member(literals, garbage, vals, refs[i], base, i);
  }

  lemma MoreFamily(literals: map<nat, Clause>, garbage: set<nat>, vals: map<int, bool>, refs: seq<nat>, base: seq<Lit>,
        n: nat, r: nat)
    requires Family(literals, garbage, vals, refs, base, n) && r in literals && r !in garbage
    requires Actual(literals[r], vals) == Lits(Flip(base, NthEven(n + 1)))
    ensures Family(literals, garbage, vals, refs + [r], base, n + 1)
  {
    hide NthEven, Flip, Actual;
  }

  lemma FlipNone(base: seq<Lit>)
    ensures NthEven(0) == 0 && Flip(base, 0) == base
  {
    forall j: nat
      ensures !Bit(0, j)
    {
      ZeroBit(j);
    }
  }

  lemma {:induction false} ZeroBit(j: nat)
    ensures !Bit(0, j)
  {
    if j > 0 {
      ZeroBit(j - 1);
    }
  }

  lemma FlipDistinct(base: seq<Lit>, n: nat)
    requires DistinctVars(base)
    ensures DistinctVars(Flip(base, n)) && NoDuplicates(Flip(base, n))
    ensures forall l :: l in Flip(base, n) ==> exists j :: 0 <= j < |base| && (l == base[j] || l == Neg(base[j]))
  {
    hide Bit;
    var f := Flip(base, n);
    forall i, j | 0 <= i < j < |f|
      ensures Var(f[i]) != Var(f[j])
    {
      assert Var(f[i]) == Var(base[i]) && Var(f[j]) == Var(base[j]);
    }
  }

  /** Different signs, different clauses. */
  lemma FamilyDistinct(literals: map<nat, Clause>, garbage: set<nat>, vals: map<int, bool>, refs: seq<nat>,
        base: seq<Lit>, d: nat)
    requires Family(literals, garbage, vals, refs, base, |refs|) && DistinctVars(base) && |base| > 0
    requires |refs| == Pow2(|base| - 1) - 1
    requires d in literals && Actual(literals[d], vals) == Lits(base)
    ensures NoDuplicates(refs + [d])
  {
    hide NthEven, Flip, Actual, Bit, Lits, Parity, Pow2, Member, DistinctVars;
    FlipNone(base);
    var all := refs + [d];
    forall i, j | 0 <= i < j < |all|
      ensures all[i] != all[j]
    {
      MemberAt(literals, garbage, vals, refs, base, |refs|, i);
      if j < |refs| {
        MemberAt(literals, garbage, vals, refs, base, |refs|, j);
        SameFlips(base, j + 1, i + 1);
      } else {
        SameFlips(base, 0, i + 1);
      }
    }
  }

  lemma SameFlips(base: seq<Lit>, i: nat, j: nat)
    requires DistinctVars(base) && |base| > 0 && i != j && i < Pow2(|base| - 1) && j < Pow2(|base| - 1)
    ensures Lits(Flip(base, NthEven(i))) != Lits(Flip(base, NthEven(j)))
  {
    hide NthEven, Parity, Pow2, Bit;
    var n, m := NthEven(i), NthEven(j);
    HalfBelow(|base|);
    if Lits(Flip(base, n)) == Lits(Flip(base, m)) {
      forall k | 0 <= k < |base|
        ensures Bit(n, k) == Bit(m, k)
      {
        SameFlip(base, n, m, k);
      }
      BitsDetermine(n, m, |base|);
      NthEvenUnique(i, n);
      NthEvenUnique(j, m);
    }
  }

  lemma SameFlip(base: seq<Lit>, n: nat, m: nat, k: nat)
    requires DistinctVars(base) && k < |base| && Lits(Flip(base, n)) == Lits(Flip(base, m))
    ensures Bit(n, k) == Bit(m, k)
  {
    hide Bit;
    var l := Flip(base, n)[k];
    assert l in Lits(Flip(base, n)) && l in Lits(Flip(base, m));
    var j :| 0 <= j < |base| && Flip(base, m)[j] == l;
    assert Var(base[j]) == Var(base[k]);
    assert j == k;
  }

  /** `d` first, the others in the order of their signs. */
  lemma FamilyIsXor(literals: map<nat, Clause>, garbage: set<nat>, occs: map<Lit, seq<nat>>, vars: set<int>, next: nat,
        vals: map<int, bool>,
      refs: seq<nat>, base: seq<Lit>, d: nat)
    requires Connected(literals, garbage, occs, vars, next)
    requires Family(literals, garbage, vals, refs, base, |refs|) && DistinctVars(base) && |base| > 0
    requires |refs| == Pow2(|base| - 1) - 1
    requires d in literals && Actual(literals[d], vals) == Lits(base)
    ensures XorClauses(literals, [d] + refs, base, vals)
  {
    hide NthEven, Flip, Actual, Bit, Lits, Parity, Pow2, Elim.Consistent, Connected, Family, Member, DistinctVars;
    FlipNone(base);
    var all := [d] + refs;
    forall i | 0 <= i < |all|
      ensures XorClause(literals, all, base, vals, i)
    {
      assert all[i] == if i == 0 then d else refs[i - 1];
      if i > 0 {
        MemberAt(literals, garbage, vals, refs, base, |refs|, i - 1);
      }
      ClauseProper(literals, garbage, occs, vars, next, all[i]);
    }
  }

  /** The clauses found are a gate unless one of them is satisfied. */
  lemma XorFound(literals: map<nat, Clause>, garbage: set<nat>, occs: map<Lit, seq<nat>>, vars: set<int>, next: nat,
        vals: map<int, bool>,
      refs: seq<nat>, base: seq<Lit>, d: nat, p: Lit)
    requires Connected(literals, garbage, occs, vars, next)
    requires Family(literals, garbage, vals, refs, base, |refs|) && DistinctVars(base) && |base| > 0
    requires |refs| == Pow2(|base| - 1) - 1
    requires p in base && d in literals && d !in garbage && Actual(literals[d], vals) == Lits(base)
    ensures forall r :: r in RefSet(refs + [d]) ==>
      r in literals && r !in garbage && (p in literals[r] || Neg(p) in literals[r])
    ensures IsXor(literals, RefSet(refs + [d]), p, vals)
  {
    hide NthEven, Flip, Actual, Bit, Parity, Pow2, Elim.Consistent, Connected, GateOver, NoneSatisfied, XorClauses,
         Family, Member, DistinctVars;
    FamilyIsXor(literals, garbage, occs, vars, next, vals, refs, base, d);
    var i :| 0 <= i < |base| && base[i] == p;
    forall r
      ensures r in RefSet(refs + [d]) <==> r in RefSet([d] + refs)
    {
    }
    assert RefSet(refs + [d]) == RefSet([d] + refs);
    forall r | r in RefSet(refs + [d])
      ensures r in literals && r !in garbage && (p in literals[r] || Neg(p) in literals[r])
    {
      if r in refs {
        var j :| 0 <= j < |refs| && refs[j] == r;
        MemberAt(literals, garbage, vals, refs, base, |refs|, j);
        FlipHas(literals[r], base, NthEven(j + 1), i, vals);
      } else {
        FlipNone(base);
        FlipHas(literals[r], base, 0, i, vals);
      }
    }
  }

  lemma FlipHas(c: Clause, base: seq<Lit>, n: nat, i: nat, vals: map<int, bool>)
    requires i < |base| && Actual(c, vals) == Lits(Flip(base, n))
    ensures base[i] in c || Neg(base[i]) in c
  {
    hide Bit;
    assert Flip(base, n)[i] in Lits(Flip(base, n));
  }

  /** Some clause has exactly the unassigned literals `ls`. */
  ghost predicate HasActual(s: State, ls: seq<Lit>) {
    exists d :: d in s.literals && d !in s.garbage && Actual(s.literals[d], s.vals) == Lits(ls)
  }

  /** There is a clause for every even number of flipped signs but zero. */
  ghost predicate HasFamily(s: State, base: seq<Lit>)
    requires base != []
  {
    forall i: nat :: 1 <= i < Pow2(|base| - 1) ==> HasActual(s, Flip(base, NthEven(i)))
  }

  lemma FamilyHas(s: State, refs: seq<nat>, base: seq<Lit>)
    requires base != [] && |refs| == Pow2(|base| - 1) - 1
    requires Family(s.literals, s.garbage, s.vals, refs, base, |refs|)
    ensures HasFamily(s, base)
  {
    hide NthEven, Flip, Pow2, Lits, Actual;
    forall i: nat | 1 <= i < Pow2(|base| - 1)
      ensures HasActual(s, Flip(base, NthEven(i)))
    {
      assert Member(s.literals, s.garbage, s.vals, refs[i - 1], base, i - 1);
    }
  }

  lemma NoMember(s: State, base: seq<Lit>, i: nat)
    requires base != [] && 1 <= i < Pow2(|base| - 1)
    requires forall d :: d in s.literals && d !in s.garbage ==>
      Actual(s.literals[d], s.vals) != Lits(Flip(base, NthEven(i)))
    ensures !HasFamily(s, base)
  {
    hide NthEven, Flip, Pow2, Lits, Actual;
    assert !HasActual(s, Flip(base, NthEven(i)));
  }

  /** Find the clauses for all sign vectors of even parity but zero. */
  method FindFamily(e: Eliminator, base: seq<Lit>) returns (all: bool)
    requires e.Valid() && |base| >= 3 && DistinctVars(base)
    requires forall l: Lit :: l in base ==> l in e.occs && Neg(l) in e.occs
    requires e.gates == []
    modifies e`gates
    ensures all ==> Family(e.literals, e.garbage, e.vals, e.gates, base, |e.gates|) && |e.gates| == Pow2(|base| - 1) - 1
    ensures !all ==> e.gates == []
    ensures all <==> HasFamily(e.S(), base)
  {
    hide NthEven, Flip, Actual, Bit, Parity, Connected, Pow2;
    var arity := |base| - 1;
    PowPositive(arity);
    var needed := Pow2(arity) - 1;
    var signs := 0;
    var lits := base;
    FlipNone(base);
    ghost var n: nat := 0;
    while needed > 0
      invariant needed >= 0 && n + needed == Pow2(arity) - 1
      invariant signs == NthEven(n) && lits == Flip(base, signs)
      invariant Family(e.literals, e.garbage, e.vals, e.gates, base, n)
    {
      lits, signs := NextSigns(lits, signs, n, base);
      FlipDistinct(base, signs);
      var found := FindClause(e, lits);
      if found == None {
        NoMember(e.S(), base, n + 1);
        e.gates := [];
        return false;
      }
      MoreFamily(e.literals, e.garbage, e.vals, e.gates, base, n, found.value);
      e.gates := e.gates + [found.value];
      needed := needed - 1;
      n := n + 1;
    }
    FamilyHas(e.S(), e.gates, base);
    return true;
  }

  /** The unassigned literals of a clause are part of a parity constraint. */
  ghost predicate XorAt(s: State, d: nat, xorLimit: nat) {
    && d in s.literals && d !in s.garbage
    && var ls := Unassigned(s.literals[d], s.vals);
      3 <= |ls| <= xorLimit + 1 && HasFamily(s, ls)
  }

  ghost predicate HasXor(s: State, os: seq<nat>, xorLimit: nat) {
    exists k :: 0 <= k < |os| && XorAt(s, os[k], xorLimit)
  }

  /** The flagged clauses are those of a parity constraint. */
  ghost predicate XorFlagged(e: Eliminator, p: Lit)
    reads e`gate, e`literals, e`vals
  {
    IsXor(e.literals, e.gate, p, e.vals)
  }

  lemma PowPositive(k: nat)
    ensures Pow2(k) > 0 && (k > 0 ==> Pow2(k) > 1)
  {
  }

  /** Clauses that contribute are flagged once. */
  method FlagGates(e: Eliminator)
    requires e.gate == {} && NoDuplicates(e.gates)
    modifies e`gate, e`gates
    ensures e.gates == old(e.gates) && e.gate == RefSet(e.gates)
  {
    hide RefSet;
    var gates := e.gates;
    var kept: seq<nat> := [];
    NoRefs();
    for i := 0 to |gates|
      invariant kept == gates[..i] && e.gate == RefSet(kept) && e.gates == gates
    {
      assert gates[..i+1] == gates[..i] + [gates[i]];
      if gates[i] in e.gate {
        FlaggedOnce(gates, i);
        continue;
      }
      MoreFlags(kept, gates[i]);
      e.gate := e.gate + {gates[i]};
      kept := kept + [gates[i]];
    }
    assert gates[..|gates|] == gates;
    e.gates := kept;
  }

  lemma NoRefs()
    ensures RefSet([]) == {}
  {
  }

  lemma MoreFlags(gates: seq<nat>, d: nat)
    ensures RefSet(gates + [d]) == RefSet(gates) + {d}
  {
    forall r
      ensures r in RefSet(gates + [d]) <==> r in RefSet(gates) + {d}
    {
    }
  }

  lemma FlaggedOnce(gates: seq<nat>, i: nat)
    requires NoDuplicates(gates) && i < |gates|
    ensures gates[i] !in RefSet(gates[..i])
  {
  }

  /** `find_xor_gate`. */
  method FindXorGate(e: Eliminator, pivot: Lit, xorLimit: nat)
    requires Ready(e, pivot) && !e.unsat && Val(pivot, e.vals) == 0
    modifies e`gate, e`gates
    ensures Found(e, pivot)
    ensures e.gates != [] <==> HasXor(e.S(), e.occs[pivot], xorLimit)
    ensures e.gates != [] ==> XorFlagged(e, pivot)
  {
    hide Connected, Found, Proper, Actual, Lits, NoneSatisfied, GateOver, Family, Pow2, DistinctVars, RefSet, HasFamily,
         XorFlagged, IsXor;
    NoneFound(e, pivot);
    ListedProper(e.literals, e.garbage, e.occs, e.vars, e.next, pivot);
    var os := e.occs[pivot];
    for k := 0 to |os|
      invariant e.gates == [] && e.gate == {} && Found(e, pivot)
      invariant forall i :: 0 <= i < k ==> !XorAt(e.S(), os[i], xorLimit)
    {
      var d := os[k];
      assert d in os;
      var base := GetClause(e, d);
      if base == None {
        continue;
      }
      var lits := base.value;
      var size := |lits|;
      var arity := size - 1;
      if size < 3 {
        continue;
      }
      if arity > xorLimit {
        continue;
      }
      BaseListed(e.literals, e.garbage, e.occs, e.vars, e.next, e.vals, d, lits, pivot);
      var all := FindFamily(e, lits);
      if !all {
        NoneFound(e, pivot);
        continue;
      }
      XorFound(e.literals, e.garbage, e.occs, e.vars, e.next, e.vals, e.gates, lits, d, pivot);
      FamilyDistinct(e.literals, e.garbage, e.vals, e.gates, lits, d);
      e.gates := e.gates + [d];
      FlagGates(e);
      TakeFound(e, pivot);
      return;
    }
  }

  lemma TakeFound(e: Eliminator, p: Lit)
    requires e.gates != [] && e.gate == RefSet(e.gates) && !e.unsat && Val(p, e.vals) == 0
    requires forall r :: r in RefSet(e.gates) ==>
      r in e.literals && r !in e.garbage && (p in e.literals[r] || Neg(p) in e.literals[r])
    requires IsXor(e.literals, RefSet(e.gates), p, e.vals)
    ensures Found(e, p) && XorFlagged(e, p)
  {
    hide IsXor, GateOver, NoneSatisfied;
    ShapesAreGates(e.literals, e.gate, p, e.vals);
  }

  lemma BaseListed(literals: map<nat, Clause>, garbage: set<nat>, occs: map<Lit, seq<nat>>, vars: set<int>, next: nat,
        vals: map<int, bool>,
      d: nat, base: seq<Lit>, pivot: Lit)
    requires Connected(literals, garbage, occs, vars, next) && d in literals && Lits(base) == Actual(literals[d], vals)
    requires pivot in literals[d] && Val(pivot, vals) == 0
    ensures pivot in base && forall l: Lit :: l in base ==> l in occs && Neg(l) in occs
  {
    ClauseProper(literals, garbage, occs, vars, next, d);
    assert pivot in Actual(literals[d], vals) && pivot in Lits(base);
    forall l: Lit | l in base
      ensures l in literals[d]
    {
      assert l in Lits(base);
    }
  }
}

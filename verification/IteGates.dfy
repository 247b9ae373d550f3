/** Searching for if-then-else gates: four ternary clauses. */
module IteGates {
  import opened Logic
  import opened Clauses
  import opened Elimination
  import opened Elim
  import opened GateLogic
  import opened Gates

  ghost predicate Ternary(c: Clause, a: Lit, b: Lit, d: Lit, vals: map<int, bool>) {
    Actual(c, vals) == {a, b, d} && a != b && a != d && b != d
  }

  /** The clause has no repeated and no complementary literals. */
  ghost predicate Proper(c: Clause) {
    NoDuplicates(c) && Elim.Consistent(Lits(c))
  }

  /** The unassigned literals, in clause order. */
  function Unassigned(c: Clause, vals: map<int, bool>): Clause {
    if c == [] then []
    else Unassigned(c[..|c|-1], vals) + if Val(c[|c|-1], vals) == 0 then [c[|c|-1]] else []
  }

  lemma {:induction false} UnassignedGrows(c: Clause, k: nat, vals: map<int, bool>)
    requires k <= |c|
    ensures |Unassigned(c[..k], vals)| <= |Unassigned(c, vals)| && |Unassigned(c, vals)| <= |c|
  {
    if k < |c| {
      var d := c[..|c|-1];
      UnassignedGrows(d, k, vals);
      assert d[..k] == c[..k];
    } else {
      assert c[..k] == c;
      if c != [] {
        UnassignedGrows(c[..|c|-1], |c| - 1, vals);
      }
    }
  }

  lemma ActualStep(c: Clause, k: nat, vals: map<int, bool>)
    requires k < |c|
    ensures c[..k+1] == c[..k] + [c[k]]
    ensures Actual(c[..k+1], vals) ==
      if Val(c[k], vals) == 0 then Actual(c[..k], vals) + {c[k]} else Actual(c[..k], vals)
    ensures NoDuplicates(c) ==> c[k] !in Actual(c[..k], vals)
  {
    assert c[..k+1] == c[..k] + [c[k]];
  }

  /** `get_ternary_clause`: the three unassigned literals, in clause order.
      Assigned literals are skipped whatever their value is. */
  method GetTernaryClause(e: Eliminator, d: nat) returns (found: Option<(Lit, Lit, Lit)>)
    requires d in e.literals && Proper(e.literals[d])
    ensures found.Some? ==>
      d !in e.garbage && Ternary(e.literals[d], found.value.0, found.value.1, found.value.2, e.vals)
    ensures found == var ls := Unassigned(e.literals[d], e.vals);
      if d in e.garbage || |ls| != 3 then None else Some((ls[0], ls[1], ls[2]))
  {
    hide Elim.Consistent, Actual;
    if d in e.garbage {
      return None;
    }
    var c := e.literals[d];
    if |c| < 3 {
      UnassignedGrows(c, |c|, e.vals);
      return None;
    }
    var ls: seq<Lit> := [];
    ActualNone(c, e.vals);
    for k := 0 to |c|
      invariant |ls| <= 3 && NoDuplicates(ls) && Lits(ls) == Actual(c[..k], e.vals) && ls == Unassigned(c[..k], e.vals)
    {
      ActualStep(c, k, e.vals);
      assert c[..k+1][..k] == c[..k];
      if Val(c[k], e.vals) != 0 {
        continue;
      }
      if |ls| == 3 {
        UnassignedGrows(c, k + 1, e.vals);
        return None;
      }
      LitsAppend(ls, c[k]);
      AppendNew(ls, c[k]);
      ls := ls + [c[k]];
    }
    assert c[..|c|] == c;
    SizeOf(ls);
    if |ls| != 3 {
      return None;
    }
    ThreeLiterals(ls);
    return Some((ls[0], ls[1], ls[2]));
  }

  lemma AppendNew(ls: seq<Lit>, l: Lit)
    requires NoDuplicates(ls) && l !in Lits(ls)
    ensures NoDuplicates(ls + [l])
  {
    assert forall i :: 0 <= i < |ls| ==> ls[i] in Lits(ls);
  }

  lemma ActualNone(c: Clause, vals: map<int, bool>)
    ensures Actual(c[..0], vals) == {} == Lits([])
  {
  }

  lemma ThreeLiterals(ls: seq<Lit>)
    requires |ls| == 3
    ensures Lits(ls) == {ls[0], ls[1], ls[2]}
  {
    assert ls == [ls[0], ls[1], ls[2]];
  }

  lemma {:induction false} FewActual(c: Clause, vals: map<int, bool>)
    ensures |Actual(c, vals)| <= |c|
  {
    if c == [] {
      assert Actual(c, vals) == {};
    } else {
      var k := |c| - 1;
      FewActual(c[..k], vals);
      ActualStep(c, k, vals);
      assert c[..k+1] == c;
    }
  }

  /** `match_ternary_clause`. */
  method MatchTernaryClause(e: Eliminator, d: nat, a: Lit, b: Lit, c: Lit) returns (match_: bool)
    requires d in e.literals && Proper(e.literals[d]) && a != b && a != c && b != c
    ensures match_ <==> d !in e.garbage && Ternary(e.literals[d], a, b, c, e.vals)
  {
    hide Elim.Consistent, Actual;
    if d in e.garbage {
      return false;
    }
    var found := 0;
    var f := e.literals[d];
    ghost var ls: seq<Lit> := [];
    ActualNone(f, e.vals);
    for k := 0 to |f|
      invariant found == |ls| && NoDuplicates(ls) && Lits(ls) == Actual(f[..k], e.vals) && Lits(ls) <= {a, b, c}
    {
      ActualStep(f, k, e.vals);
      if Val(f[k], e.vals) != 0 {
        continue;
      }
      if a != f[k] && b != f[k] && c != f[k] {
        InActual(f, k, e.vals);
        return false;
      }
      LitsAppend(ls, f[k]);
      AppendNew(ls, f[k]);
      ls := ls + [f[k]];
      found := found + 1;
    }
    assert f[..|f|] == f;
    SizeOf(ls);
    SameSet(Lits(ls), a, b, c);
    return found == 3;
  }

  lemma InActual(c: Clause, k: nat, vals: map<int, bool>)
    requires k < |c| && Val(c[k], vals) == 0
    ensures c[k] in Actual(c, vals)
  {
  }

  lemma SameSet(s: set<Lit>, a: Lit, b: Lit, c: Lit)
    requires s <= {a, b, c} && a != b && a != c && b != c
    ensures s == {a, b, c} <==> |s| == 3
  {
    var t := {a, b, c};
    assert |t| == 3;
    if |s| == 3 {
      assert |t - s| == 0 && t == s + (t - s);
    }
  }

  /** `find_ternary_clause`: search the shortest of the three occurrence lists. */
  method FindTernaryClause(e: Eliminator, a0: Lit, b0: Lit, c0: Lit) returns (found: Option<nat>)
    requires e.Valid() && a0 != b0 && a0 != c0 && b0 != c0 && a0 in e.occs && b0 in e.occs && c0 in e.occs
    ensures found.Some? ==>
      found.value in e.literals && found.value !in e.garbage && Ternary(e.literals[found.value], a0, b0, c0, e.vals)
    ensures found == None ==>
      forall d :: d in e.literals && d !in e.garbage ==> !Ternary(e.literals[d], a0, b0, c0, e.vals)
  {
    hide Elim.Consistent, Connected, Ternary, Proper;
    var a, b, c := a0, b0, c0;
    if |e.occs[b]| > |e.occs[c]| {
      b, c := c, b;
    }
    if |e.occs[a]| > |e.occs[b]| {
      a, b := b, a;
    }
    AnyOrder(e.literals, e.vals, a, b, c, a0, b0, c0);
    ListedProper(e.literals, e.garbage, e.occs, e.vars, e.next, a);
    var ps := e.occs[a];
    for k := 0 to |ps|
      invariant forall j :: 0 <= j < k ==> ps[j] in e.garbage || !Ternary(e.literals[ps[j]], a0, b0, c0, e.vals)
    {
      assert ps[k] in ps;
      var matches := MatchTernaryClause(e, ps[k], a, b, c);
      if matches {
        return Some(ps[k]);
      }
    }
    AllListed(e.literals, e.garbage, e.occs, e.vars, e.next, e.vals, a, a0, b0, c0);
    return None;
  }

  lemma AnyOrder(literals: map<nat, Clause>, vals: map<int, bool>, a: Lit, b: Lit, c: Lit, a0: Lit, b0: Lit, c0: Lit)
    requires {a, b, c} == {a0, b0, c0} && a0 != b0 && a0 != c0 && b0 != c0
    ensures a != b && a != c && b != c
    ensures forall d :: d in literals ==>
      (Ternary(literals[d], a, b, c, vals) <==> Ternary(literals[d], a0, b0, c0, vals))
  {
    assert a0 in {a, b, c} && b0 in {a, b, c} && c0 in {a, b, c};
  }

  lemma ListedProper(literals: map<nat, Clause>, garbage: set<nat>, occs: map<Lit, seq<nat>>, vars: set<int>, next: nat,
        l: Lit)
    requires Connected(literals, garbage, occs, vars, next) && l in occs
    ensures forall r :: r in occs[l] ==> r in literals && l in literals[r] && Proper(literals[r])
  {
  }

  lemma AllListed(literals: map<nat, Clause>, garbage: set<nat>, occs: map<Lit, seq<nat>>, vars: set<int>, next: nat,
        vals: map<int, bool>,
      a: Lit, a0: Lit, b0: Lit, c0: Lit)
    requires Connected(literals, garbage, occs, vars, next) && a in occs && a in {a0, b0, c0}
    requires forall j :: 0 <= j < |occs[a]| && occs[a][j] in literals ==>
      occs[a][j] in garbage || !Ternary(literals[occs[a][j]], a0, b0, c0, vals)
    ensures forall d :: d in literals && d !in garbage ==> !Ternary(literals[d], a0, b0, c0, vals)
  {
    forall d | d in literals && d !in garbage
      ensures !Ternary(literals[d], a0, b0, c0, vals)
    {
      if a in literals[d] {
        var j :| 0 <= j < |occs[a]| && occs[a][j] == d;
      } else {
        assert a !in Actual(literals[d], vals);
      }
    }
  }

  /** The first other literal of a ternary clause is the one tried as condition. */
  function ConditionOf(ls: Clause, pivot: Lit): Lit
    requires |ls| == 3
  {
    if ls[0] == pivot then ls[1] else if ls[1] == pivot then ls[0] else ls[1]
  }

  /** The pivot first. */
  method PivotFirst(t: (Lit, Lit, Lit), pivot: Lit) returns (b: Lit, c: Lit)
    requires pivot == t.0 || pivot == t.1 || pivot == t.2
    requires t.0 != t.1 && t.0 != t.2 && t.1 != t.2
    ensures {pivot, b, c} == {t.0, t.1, t.2} && pivot != b && pivot != c && b != c
    ensures b == ConditionOf([t.0, t.1, t.2], pivot)
  {
    var a: Lit;
    a, b, c := t.0, t.1, t.2;
    if b == pivot {
      a, b := b, a;
    }
    if c == pivot {
      a, c := c, a;
    }
  }

  /** What the two clauses with the pivot have to look like: `b` and its negation,
      and two other literals over different variables. */
  method MatchConditions(bi: Lit, ci: Lit, bj0: Lit, cj0: Lit) returns (found: Option<(Lit, Lit)>)
    requires Var(bi) != Var(ci) && Var(bj0) != Var(cj0)
    ensures found.Some? ==>
      found.value.0 == Neg(bi) && {found.value.0, found.value.1} == {bj0, cj0} && Var(ci) != Var(found.value.1)
    ensures found == None ==>
      forall c: Lit :: Var(c) != Var(ci) ==> {Neg(bi), c} != {bj0, cj0}
  {
    var bj, cj := bj0, cj0;
    if Var(bi) == Var(cj) {
      bj, cj := cj, bj;
    }
    if Var(ci) == Var(cj) {
      NoCondition(bi, ci, bj, cj);
      return None;
    }
    if bi != Neg(bj) {
      NoCondition(bi, ci, bj, cj);
      return None;
    }
    assert Neg(Neg(bj)) == bj;
    return Some((bj, cj));
  }

  lemma NoCondition(bi: Lit, ci: Lit, bj: Lit, cj: Lit)
    requires Var(bi) != Var(ci) && Var(bj) != Var(cj) && (Var(ci) == Var(cj) || bi != Neg(bj)) && Var(bi) != Var(cj)
    ensures forall c: Lit :: Var(c) != Var(ci) ==> {Neg(bi), c} != {bj, cj}
  {
    assert Neg(Neg(bj)) == bj;
    forall c: Lit | Var(c) != Var(ci)
      ensures {Neg(bi), c} != {bj, cj}
    {
      assert Neg(bi) in {Neg(bi), c} && cj in {bj, cj};
    }
  }

  lemma TernaryVars(c: Clause, a: Lit, b: Lit, d: Lit, vals: map<int, bool>)
    requires Proper(c) && Ternary(c, a, b, d, vals)
    ensures Var(a) != Var(b) && Var(a) != Var(d) && Var(b) != Var(d)
    ensures Val(a, vals) == 0 && Val(b, vals) == 0 && Val(d, vals) == 0
    ensures a in c && Neg(a) !in c
  {
    assert a in Actual(c, vals) && b in Actual(c, vals) && d in Actual(c, vals);
    assert a in Lits(c) && b in Lits(c) && d in Lits(c);
    assert a != Neg(b) && a != Neg(d) && b != Neg(d);
    assert Neg(a) in c ==> Neg(a) in Lits(c);
  }

  /** The four clauses are those of an if-then-else. */
  lemma IteFound(e: Eliminator, di: nat, dj: nat, d1: nat, d2: nat, p: Lit, b: Lit, ci: Lit, cj: Lit)
    requires e.Valid() && !e.unsat && di in e.literals && dj in e.literals && d1 in e.literals && d2 in e.literals
    requires di !in e.garbage && dj !in e.garbage && d1 !in e.garbage && d2 !in e.garbage
    requires Ternary(e.literals[di], p, b, ci, e.vals) && Ternary(e.literals[dj], p, Neg(b), cj, e.vals)
    requires Ternary(e.literals[d1], Neg(p), b, Neg(ci), e.vals)
    requires Ternary(e.literals[d2], Neg(p), Neg(b), Neg(cj), e.vals)
    requires e.gate == {di, dj, d1, d2} && e.gates == [di, dj, d1, d2]
    ensures Found(e, p) && IteFlagged(e, p)
  {
    hide Connected, Ternary, Proper, GateOver, NoneSatisfied;
    ClauseProper(e.literals, e.garbage, e.occs, e.vars, e.next, di);
    ClauseProper(e.literals, e.garbage, e.occs, e.vars, e.next, dj);
    ClauseProper(e.literals, e.garbage, e.occs, e.vars, e.next, d1);
    ClauseProper(e.literals, e.garbage, e.occs, e.vars, e.next, d2);
    TernaryVars(e.literals[di], p, b, ci, e.vals);
    TernaryVars(e.literals[dj], p, Neg(b), cj, e.vals);
    TernaryVars(e.literals[d1], Neg(p), b, Neg(ci), e.vals);
    TernaryVars(e.literals[d2], Neg(p), Neg(b), Neg(cj), e.vals);
    assert Neg(Neg(p)) == p;
    IteIsIte(e.literals, di, dj, d1, d2, p, b, ci, cj, e.vals);
    IteGate(e.literals, di, dj, d1, d2, p, b, ci, cj, e.vals);
    FourRefs(di, dj, d1, d2);
  }

  /** The flagged clauses are those of an if-then-else. */
  ghost predicate IteFlagged(e: Eliminator, p: Lit)
    reads e`gate, e`literals, e`vals
  {
    IsIte(e.literals, e.gate, p, e.vals)
  }

  lemma IteIsIte(literals: map<nat, Clause>, di: nat, dj: nat, d1: nat, d2: nat, p: Lit, b: Lit, ci: Lit, cj: Lit,
        vals: map<int, bool>)
    requires di in literals && dj in literals && d1 in literals && d2 in literals
    requires Ternary(literals[di], p, b, ci, vals) && Ternary(literals[dj], p, Neg(b), cj, vals)
    requires Ternary(literals[d1], Neg(p), b, Neg(ci), vals) && Ternary(literals[d2], Neg(p), Neg(b), Neg(cj), vals)
    requires Neg(p) !in literals[di] && Neg(p) !in literals[dj] && p !in literals[d1] && p !in literals[d2]
    requires Var(b) != Var(p) && Var(ci) != Var(p) && Var(cj) != Var(p) && Var(b) != Var(ci) && Var(b) != Var(cj)
    requires Val(p, vals) == 0 && Val(b, vals) == 0 && Val(ci, vals) == 0 && Val(cj, vals) == 0
    ensures IteClauses(literals, di, dj, d1, d2, p, b, ci, cj, vals)
  {
  }

  lemma ClauseProper(literals: map<nat, Clause>, garbage: set<nat>, occs: map<Lit, seq<nat>>, vars: set<int>, next: nat,
        c: nat)
    requires Connected(literals, garbage, occs, vars, next) && c in literals
    ensures Proper(literals[c])
    ensures forall l: Lit :: l in literals[c] ==> l in occs && Neg(l) in occs
  {
    forall l: Lit | l in literals[c]
      ensures l in occs && Neg(l) in occs
    {
      assert Var(l) in ClauseVars(literals[c]);
      assert Var(Neg(l)) == Var(l);
    }
  }

  lemma FourRefs(a: nat, b: nat, c: nat, d: nat)
    ensures RefSet([a, b, c, d]) == {a, b, c, d}
  {
    forall r
      ensures r in RefSet([a, b, c, d]) <==> r in {a, b, c, d}
    {
      assert [a, b, c, d][0] == a && [a, b, c, d][1] == b && [a, b, c, d][2] == c && [a, b, c, d][3] == d;
    }
  }

  /** The two other literals of a ternary clause with the pivot. */
  method GetCondition(e: Eliminator, d: nat, pivot: Lit) returns (found: Option<(Lit, Lit)>)
    requires e.Valid() && d in e.literals && pivot in e.literals[d] && Val(pivot, e.vals) == 0
    ensures found.Some? ==> d !in e.garbage && Ternary(e.literals[d], pivot, found.value.0, found.value.1, e.vals)
    ensures found.Some? <==> d !in e.garbage && |Unassigned(e.literals[d], e.vals)| == 3
    ensures found.Some? ==> found.value.0 == ConditionOf(Unassigned(e.literals[d], e.vals), pivot)
    ensures found.Some? ==> Var(found.value.0) != Var(found.value.1)
    ensures found.Some? ==>
      forall l: Lit :: l in {pivot, found.value.0, found.value.1} ==> l in e.occs && Neg(l) in e.occs
  {
    hide Connected, Proper;
    ClauseProper(e.literals, e.garbage, e.occs, e.vars, e.next, d);
    var t := GetTernaryClause(e, d);
    if t == None {
      return None;
    }
    assert pivot in Actual(e.literals[d], e.vals);
    var b, c := PivotFirst(t.value, pivot);
    assert Unassigned(e.literals[d], e.vals) == [t.value.0, t.value.1, t.value.2];
    TernaryVars(e.literals[d], pivot, b, c, e.vals);
    forall l: Lit | l in {pivot, b, c}
      ensures l in e.literals[d]
    {
      assert l in Actual(e.literals[d], e.vals);
    }
    return Some((b, c));
  }

  ghost predicate HasTernary(s: State, a: Lit, b: Lit, c: Lit) {
    exists d :: d in s.literals && d !in s.garbage && Ternary(s.literals[d], a, b, c, s.vals)
  }

  /** The second clause and two more complete the first, `{p, b, c}`. */
  ghost predicate Completes(s: State, dj: nat, p: Lit, b: Lit, c: Lit, x: Lit)
    requires dj in s.literals
  {
    && Var(x) != Var(c) && Ternary(s.literals[dj], p, Neg(b), x, s.vals)
    && HasTernary(s, Neg(p), b, Neg(c)) && HasTernary(s, Neg(p), Neg(b), Neg(x))
  }

  /** Two clauses with the pivot belong to an if-then-else whose condition is the
      first other literal of the first of them. */
  ghost predicate IteAt(s: State, di: nat, dj: nat, p: Lit) {
    && di in s.literals && dj in s.literals && di !in s.garbage && dj !in s.garbage
    && |Unassigned(s.literals[di], s.vals)| == 3
    && var b := ConditionOf(Unassigned(s.literals[di], s.vals), p);
      exists c, x :: Ternary(s.literals[di], p, b, c, s.vals) && Completes(s, dj, p, b, c, x)
  }

  ghost predicate HasIte(s: State, os: seq<nat>, p: Lit) {
    exists i, j :: 0 <= i < j < |os| && IteAt(s, os[i], os[j], p)
  }

  /** `find_if_then_else`. */
  method FindIfThenElse(e: Eliminator, pivot: Lit)
    requires Ready(e, pivot) && !e.unsat && Val(pivot, e.vals) == 0
    modifies e`gate, e`gates
    ensures Found(e, pivot)
    ensures e.gates != [] <==> HasIte(e.S(), e.occs[pivot], pivot)
    ensures e.gates != [] ==> IteFlagged(e, pivot)
  {
    hide Connected, Ternary, Found, Proper, IteAt, IteFlagged;
    NoneFound(e, pivot);
    ListedOnce(e.literals, e.garbage, e.occs, e.vars, e.next, pivot);
    var os := e.occs[pivot];
    for i := 0 to |os|
      invariant e.gates == [] && e.gate == {} && Found(e, pivot)
      invariant forall k, j :: 0 <= k < i && k < j < |os| ==> !IteAt(e.S(), os[k], os[j], pivot)
    {
      assert os[i] in os;
      var ti := GetCondition(e, os[i], pivot);
      if ti == None {
        NoFirst(e.S(), os[i], pivot);
        continue;
      }
      for j := i + 1 to |os|
        invariant e.gates == [] && e.gate == {} && Found(e, pivot)
        invariant forall k :: i < k < j ==> !IteAt(e.S(), os[i], os[k], pivot)
      {
        assert os[j] in os;
        var tj := GetCondition(e, os[j], pivot);
        if tj == None {
          NoSecond(e, os[i], os[j], pivot);
          continue;
        }
        var found := TakeIfThenElse(e, pivot, os[i], ti.value, os[j], tj.value);
        if found {
          return;
        }
      }
    }
  }

  lemma NoFirst(s: State, di: nat, p: Lit)
    requires di in s.literals ==> di in s.garbage || |Unassigned(s.literals[di], s.vals)| != 3
    ensures forall dj :: !IteAt(s, di, dj, p)
  {
  }

  lemma {:induction false} UnassignedIsActual(c: Clause, vals: map<int, bool>)
    ensures Lits(Unassigned(c, vals)) == Actual(c, vals) && (NoDuplicates(c) ==> NoDuplicates(Unassigned(c, vals)))
  {
    if c != [] {
      var k := |c| - 1;
      UnassignedIsActual(c[..k], vals);
      ActualStep(c, k, vals);
      assert c[..k+1] == c && c[..|c|-1] == c[..k];
      if Val(c[k], vals) == 0 {
        LitsAppend(Unassigned(c[..k], vals), c[k]);
        if NoDuplicates(c) {
          AppendNew(Unassigned(c[..k], vals), c[k]);
        }
      }
    } else {
      ActualNone(c, vals);
    }
  }

  lemma TernaryCount(c: Clause, a: Lit, b: Lit, d: Lit, vals: map<int, bool>)
    requires Proper(c) && Ternary(c, a, b, d, vals)
    ensures |Unassigned(c, vals)| == 3
  {
    UnassignedIsActual(c, vals);
    SizeOf(Unassigned(c, vals));
    SameSet(Lits(Unassigned(c, vals)), a, b, d);
  }

  lemma NoSecond(e: Eliminator, di: nat, dj: nat, p: Lit)
    requires e.Valid() && dj in e.literals && (dj in e.garbage || |Unassigned(e.literals[dj], e.vals)| != 3)
    ensures !IteAt(e.S(), di, dj, p)
  {
    hide Connected, Ternary, Proper, HasTernary;
    ClauseProper(e.literals, e.garbage, e.occs, e.vars, e.next, dj);
    if IteAt(e.S(), di, dj, p) {
      var b := ConditionOf(Unassigned(e.literals[di], e.vals), p);
      var c, x :| Ternary(e.literals[di], p, b, c, e.vals) && Completes(e.S(), dj, p, b, c, x);
      TernaryCount(e.literals[dj], p, Neg(b), x, e.vals);
    }
  }

  /** A ternary clause determines its third literal. */
  lemma ThirdLiteral(c: Clause, a: Lit, b: Lit, x: Lit, y: Lit, vals: map<int, bool>)
    requires Ternary(c, a, b, x, vals) && Ternary(c, a, b, y, vals)
    ensures x == y
  {
    assert x in Actual(c, vals);
  }

  lemma OtherPair(c: Clause, a: Lit, b: Lit, x: Lit, u: Lit, v: Lit, vals: map<int, bool>)
    requires Ternary(c, a, b, x, vals) && Ternary(c, a, u, v, vals)
    ensures {b, x} == {u, v}
  {
    assert b in Actual(c, vals) && x in Actual(c, vals) && u in Actual(c, vals) && v in Actual(c, vals);
  }

  /** Look for the two clauses that complete the if-then-else. */
  method TakeIfThenElse(e: Eliminator, pivot: Lit, di: nat, ti: (Lit, Lit), dj: nat, tj: (Lit, Lit))
    returns (found: bool)
    requires e.Valid() && !e.unsat && di in e.literals && dj in e.literals && di !in e.garbage && dj !in e.garbage
    requires Ternary(e.literals[di], pivot, ti.0, ti.1, e.vals) && Ternary(e.literals[dj], pivot, tj.0, tj.1, e.vals)
    requires Var(ti.0) != Var(ti.1) && Var(tj.0) != Var(tj.1)
    requires forall l: Lit :: l in {pivot, ti.0, ti.1, tj.0, tj.1} ==> l in e.occs && Neg(l) in e.occs
    requires |Unassigned(e.literals[di], e.vals)| == 3 && ti.0 == ConditionOf(Unassigned(e.literals[di], e.vals), pivot)
    modifies e`gate, e`gates
    ensures found ==> Found(e, pivot) && IteFlagged(e, pivot) && e.gates != []
    ensures !found ==> e.gates == old(e.gates) && e.gate == old(e.gate)
    ensures found <==> IteAt(e.S(), di, dj, pivot)
  {
    hide Connected, Found, Proper, Actual, IteFlagged, Ternary, HasTernary;
    found := false;
    var bi, ci := ti.0, ti.1;
    ghost var s := e.S();
    assert IteAt(s, di, dj, pivot) ==> exists x :: Completes(s, dj, pivot, bi, ci, x) by {
      if IteAt(s, di, dj, pivot) {
        var c, x :| Ternary(s.literals[di], pivot, bi, c, s.vals) && Completes(s, dj, pivot, bi, c, x);
        ThirdLiteral(s.literals[di], pivot, bi, c, ci, s.vals);
      }
    }
    assert forall x :: Completes(s, dj, pivot, bi, ci, x) ==> IteAt(s, di, dj, pivot);
    forall x: Lit | Completes(s, dj, pivot, bi, ci, x)
      ensures {Neg(bi), x} == {tj.0, tj.1} && Var(x) != Var(ci)
    {
      OtherPair(e.literals[dj], pivot, Neg(bi), x, tj.0, tj.1, e.vals);
    }
    var condition := MatchConditions(bi, ci, tj.0, tj.1);
    if condition == None {
      return;
    }
    var bj, cj := condition.value.0, condition.value.1;
    assert bj in {tj.0, tj.1} && cj in {tj.0, tj.1};
    ClauseProper(e.literals, e.garbage, e.occs, e.vars, e.next, di);
    ClauseProper(e.literals, e.garbage, e.occs, e.vars, e.next, dj);
    TernaryVars(e.literals[di], pivot, bi, ci, e.vals);
    TernaryVars(e.literals[dj], pivot, tj.0, tj.1, e.vals);
    SameTernary(e.literals[dj], pivot, tj.0, tj.1, bj, cj, e.vals);
    assert pivot in {pivot, bi, ci, bj, cj} && bi in {pivot, bi, ci, bj, cj} && ci in {pivot, bi, ci, bj, cj};
    var d1 := FindTernaryClause(e, Neg(pivot), bi, Neg(ci));
    if d1 == None {
      NoTernary(s, Neg(pivot), bi, Neg(ci));
      return;
    }
    var d2 := FindTernaryClause(e, Neg(pivot), bj, Neg(cj));
    forall x: Lit | Completes(s, dj, pivot, bi, ci, x)
      ensures x == cj
    {
      ThirdLiteral(e.literals[dj], pivot, Neg(bi), x, cj, e.vals);
    }
    if d2 == None {
      NoTernary(s, Neg(pivot), bj, Neg(cj));
      return;
    }
    SomeTernary(s, d1.value, Neg(pivot), bi, Neg(ci));
    SomeTernary(s, d2.value, Neg(pivot), bj, Neg(cj));
    assert Completes(s, dj, pivot, bi, ci, cj);
    e.gate, e.gates := {di, dj, d1.value, d2.value}, [di, dj, d1.value, d2.value];
    IteFound(e, di, dj, d1.value, d2.value, pivot, bi, ci, cj);
    found := true;
  }

  lemma NoTernary(s: State, a: Lit, b: Lit, c: Lit)
    requires forall d :: d in s.literals && d !in s.garbage ==> !Ternary(s.literals[d], a, b, c, s.vals)
    ensures !HasTernary(s, a, b, c)
  {
  }

  lemma SomeTernary(s: State, d: nat, a: Lit, b: Lit, c: Lit)
    requires d in s.literals && d !in s.garbage && Ternary(s.literals[d], a, b, c, s.vals)
    ensures HasTernary(s, a, b, c)
  {
  }

  lemma SameTernary(c: Clause, a: Lit, b: Lit, d: Lit, x: Lit, y: Lit, vals: map<int, bool>)
    requires Ternary(c, a, b, d, vals) && {x, y} == {b, d}
    ensures Ternary(c, a, x, y, vals)
  {
    assert b in {x, y} && d in {x, y} && x in {b, d} && y in {b, d};
    assert {a, x, y} == {a} + {x, y} && {a, b, d} == {a} + {b, d};
  }
}

/** Why variables may be eliminated by resolution, with or without gates, and
    how the pushed clauses repair the pivot. */
module Elimination {
  import opened Logic
  import opened Reconstruction
  import opened Clauses

  ghost predicate Equivalent(f: Formula, g: Formula) {
    forall m: Model :: Models(m, f) <==> Models(m, g)
  }

  /** The clauses without the variable of `p`. */
  ghost function Without(f: Formula, p: Lit): Formula {
    set c | c in f && p !in c && Neg(p) !in c
  }

  /** The clause holds in all models of what is left without the pivot, even with
      the pivot removed. */
  ghost predicate Implied(f: Formula, c: set<Lit>) {
    forall m: Model :: Models(m, f) ==> SatLits(c, m)
  }

  ghost function Rest(c: set<Lit>, p: Lit): set<Lit> {
    c - {p}
  }

  // ------------------------------------------------ reconstruction of a pivot

  ghost function Entries(cs: seq<Clause>, p: Lit, ids: seq<nat>): (es: seq<Entry>)
    requires |ids| == |cs|
    ensures |es| == |cs|
  {
    seq(|cs|, i requires 0 <= i < |cs| => Entry([p], ids[i], cs[i]))
  }

  ghost predicate AllSatisfied(cs: seq<Clause>, m: Model) {
    forall i :: 0 <= i < |cs| ==> SatClause(cs[i], m)
  }

  /** Replaying clauses that all contain the witness flips it at most once. */
  lemma {:induction false} ReplayPivot(cs: seq<Clause>, p: Lit, ids: seq<nat>, m: Model)
    requires |ids| == |cs| && forall i :: 0 <= i < |cs| ==> p in cs[i]
    ensures Replay(Entries(cs, p, ids), m) == if AllSatisfied(cs, m) then m else SetTrue(p, m)
    decreases |cs|
  {
    if cs != [] {
      var k := |cs| - 1;
      var es := Entries(cs, p, ids);
      assert es[..k] == Entries(cs[..k], p, ids[..k]);
      var n := ReplayEntry(es[k], m);
      var w := [p];
      assert w[..0] == [] && MakeTrue(w, m) == MakeTrue([], SetTrue(p, m)) == SetTrue(p, m);
      ReplayPivot(cs[..k], p, ids[..k], n);
      if n != m || !SatClause(cs[k], m) {
        assert True(p, n);
        forall i | 0 <= i < k
          ensures SatClause(cs[..k][i], n)
        {
          assert p in cs[..k][i];
        }
      } else {
        assert AllSatisfied(cs[..k], m) <==> AllSatisfied(cs, m) by {
          if AllSatisfied(cs[..k], m) {
            forall i | 0 <= i < |cs|
              ensures SatClause(cs[i], m)
            {
              assert i < k ==> cs[..k][i] == cs[i];
            }
          }
          if AllSatisfied(cs, m) {
            assert forall i :: 0 <= i < k ==> cs[..k][i] == cs[i];
          }
        }
      }
    }
  }

  /** A clause of `cs` forces `p`: its other literals are all false. */
  ghost predicate Forces(cs: seq<Clause>, p: Lit, m: Model) {
    exists i :: 0 <= i < |cs| && !SatLits(Rest(Lits(cs[i]), p), m)
  }

  lemma RestUnchanged(c: Clause, p: Lit, m: Model, n: Model)
    requires forall l: Lit :: Var(l) != Var(p) ==> (True(l, m) <==> True(l, n))
    requires Neg(p) !in c
    ensures SatLits(Rest(Lits(c), p), m) <==> SatLits(Rest(Lits(c), p), n)
    ensures SatClause(c, m) <==> SatLits(Rest(Lits(c), p), m) || (p in c && True(p, m))
  {
    forall l | l in Rest(Lits(c), p)
      ensures Var(l) != Var(p)
    {
    }
    if SatClause(c, m) {
      var l :| l in c && True(l, m);
      assert l != p ==> l in Rest(Lits(c), p);
    }
  }

  /** After replaying negative, then positive clauses, the pivot is true exactly
      if a positive clause forces it, or nothing did and it was true before. */
  lemma PivotValue(ps: seq<Clause>, ns: seq<Clause>, p: Lit, pids: seq<nat>, nids: seq<nat>, m: Model)
    requires |pids| == |ps| && |nids| == |ns|
    requires forall i :: 0 <= i < |ps| ==> p in ps[i] && Neg(p) !in ps[i]
    requires forall i :: 0 <= i < |ns| ==> Neg(p) in ns[i] && p !in ns[i]
    ensures var n := Replay(Entries(ps, p, pids) + Entries(ns, Neg(p), nids), m);
            && (forall l: Lit :: Var(l) != Var(p) ==> (True(l, n) <==> True(l, m)))
            && (True(p, n) <==> Forces(ps, p, m) || (True(p, m) && !Forces(ns, Neg(p), m)))
  {
    var k := if AllSatisfied(ns, m) then m else SetTrue(Neg(p), m);
    var n := if AllSatisfied(ps, k) then k else SetTrue(p, k);
    ReplayConcat(Entries(ps, p, pids), Entries(ns, Neg(p), nids), m);
    ReplayPivot(ns, Neg(p), nids, m);
    ReplayPivot(ps, p, pids, k);
    SatisfiedOrForced(ns, Neg(p), m, m);
    SatisfiedOrForced(ps, p, m, k);
  }

  lemma SatisfiedOrForced(cs: seq<Clause>, p: Lit, m: Model, k: Model)
    requires forall i :: 0 <= i < |cs| ==> p in cs[i] && Neg(p) !in cs[i]
    requires forall l: Lit :: Var(l) != Var(p) ==> (True(l, k) <==> True(l, m))
    ensures AllSatisfied(cs, k) <==> True(p, k) || !Forces(cs, p, m)
  {
    forall i | 0 <= i < |cs|
      ensures SatClause(cs[i], k) <==> SatLits(Rest(Lits(cs[i]), p), m) || True(p, k)
    {
      RestUnchanged(cs[i], p, k, m);
    }
  }

  /** The resolvent of `c` and `d` on `p` holds in all models of `f`. */
  ghost predicate ResolventHolds(f: Formula, c: Clause, d: Clause, p: Lit) {
    Implied(f, Rest(Lits(c), p) + Rest(Lits(d), Neg(p)))
  }

  ghost predicate AllResolved(f: Formula, ps: seq<Clause>, ns: seq<Clause>, p: Lit) {
    forall i, j :: 0 <= i < |ps| && 0 <= j < |ns| ==> ResolventHolds(f, ps[i], ns[j], p)
  }

  /** In every model of `f` the gate clauses force the pivot to exactly one value. */
  ghost predicate ExactlyOne(f: Formula, gp: seq<Clause>, gn: seq<Clause>, p: Lit) {
    forall m: Model :: Models(m, f) ==> (Forces(gp, p, m) <==> !Forces(gn, Neg(p), m))
  }

  ghost predicate Occurs(cs: seq<Clause>, p: Lit) {
    forall i :: 0 <= i < |cs| ==> p in cs[i] && Neg(p) !in cs[i]
  }

  lemma NotBothForce(f: Formula, ps: seq<Clause>, ns: seq<Clause>, p: Lit, m: Model)
    requires AllResolved(f, ps, ns, p) && Models(m, f)
    ensures !(Forces(ps, p, m) && Forces(ns, Neg(p), m))
  {
    if Forces(ps, p, m) {
      var i :| 0 <= i < |ps| && !SatLits(Rest(Lits(ps[i]), p), m);
      forall j | 0 <= j < |ns|
        ensures SatLits(Rest(Lits(ns[j]), Neg(p)), m)
      {
        assert ResolventHolds(f, ps[i], ns[j], p);
        var l :| l in Rest(Lits(ps[i]), p) + Rest(Lits(ns[j]), Neg(p)) && True(l, m);
        assert l in Rest(Lits(ns[j]), Neg(p));
      }
    }
  }

  /** The value of the pivot satisfies all clauses it occurs in. */
  lemma ValueSatisfies(cs: seq<Clause>, p: Lit, m: Model, n: Model)
    requires Occurs(cs, p) && (Forces(cs, p, m) ==> True(p, n))
    requires forall l: Lit :: Var(l) != Var(p) ==> (True(l, n) <==> True(l, m))
    ensures AllSatisfied(cs, n)
  {
    forall i | 0 <= i < |cs|
      ensures SatClause(cs[i], n)
    {
      RestUnchanged(cs[i], p, n, m);
    }
  }

  lemma WithoutUnchanged(f: Formula, p: Lit, m: Model, n: Model)
    requires Models(m, f) && f == Without(f, p)
    requires forall l: Lit :: Var(l) != Var(p) ==> (True(l, n) <==> True(l, m))
    ensures Models(n, f)
  {
    forall c | c in f
      ensures SatLits(c, n)
    {
      var l :| l in c && True(l, m);
      assert l != p && l != Neg(p);
      assert True(l, n);
    }
  }

  /** Elimination without a gate: all resolvents were added and all clauses with
      the pivot pushed, positive ones first. */
  lemma PlainEliminated(f: Formula, ps: seq<Clause>, ns: seq<Clause>, p: Lit, pids: seq<nat>, nids: seq<nat>, m: Model)
    requires |pids| == |ps| && |nids| == |ns| && Occurs(ps, p) && Occurs(ns, Neg(p))
    requires f == Without(f, p) && Models(m, f) && AllResolved(f, ps, ns, p)
    ensures var n := Replay(Entries(ps, p, pids) + Entries(ns, Neg(p), nids), m);
            Models(n, f) && AllSatisfied(ps, n) && AllSatisfied(ns, n)
  {
    var n := Replay(Entries(ps, p, pids) + Entries(ns, Neg(p), nids), m);
    PivotValue(ps, ns, p, pids, nids, m);
    NotBothForce(f, ps, ns, p, m);
    WithoutUnchanged(f, p, m, n);
    ValueSatisfies(ps, p, m, n);
    ValueSatisfies(ns, Neg(p), m, n);
  }

  /** Elimination with a gate: only resolvents of a gate and a non-gate clause
      were added, and only gate clauses pushed. */
  lemma GateEliminated(f: Formula, gp: seq<Clause>, op: seq<Clause>, gn: seq<Clause>, on: seq<Clause>, p: Lit,
      pids: seq<nat>, nids: seq<nat>, m: Model)
    requires |pids| == |gp| && |nids| == |gn|
    requires Occurs(gp, p) && Occurs(op, p) && Occurs(gn, Neg(p)) && Occurs(on, Neg(p))
    requires f == Without(f, p) && Models(m, f)
    requires AllResolved(f, gp, on, p) && AllResolved(f, op, gn, p) && ExactlyOne(f, gp, gn, p)
    ensures var n := Replay(Entries(gp, p, pids) + Entries(gn, Neg(p), nids), m);
            && Models(n, f) && AllSatisfied(gp, n) && AllSatisfied(gn, n)
            && AllSatisfied(op, n) && AllSatisfied(on, n)
  {
    var n := Replay(Entries(gp, p, pids) + Entries(gn, Neg(p), nids), m);
    PivotValue(gp, gn, p, pids, nids, m);
    NotBothForce(f, gp, on, p, m);
    NotBothForce(f, op, gn, p, m);
    WithoutUnchanged(f, p, m, n);
    ValueSatisfies(gp, p, m, n);
    ValueSatisfies(op, p, m, n);
    ValueSatisfies(gn, Neg(p), m, n);
    ValueSatisfies(on, Neg(p), m, n);
  }

  // ------------------------------------------------------------- progress

  /** What resolution steps may do while `p` is tried: the clauses stay
      equivalent, and what they say without `p` only gets stronger. */
  ghost predicate Advances(f: Formula, g: Formula, p: Lit) {
    && Equivalent(f, g)
    && (forall m: Model :: Models(m, Without(g, p)) ==> Models(m, Without(f, p)))
  }

  lemma AdvancesTrans(f: Formula, g: Formula, h: Formula, p: Lit)
    requires Advances(f, g, p) && Advances(g, h, p)
    ensures Advances(f, h, p)
  {
    forall m: Model
      ensures Models(m, f) <==> Models(m, h)
    {
      assert Models(m, f) <==> Models(m, g);
    }
    forall m: Model | Models(m, Without(h, p))
      ensures Models(m, Without(f, p))
    {
      assert Models(m, Without(g, p));
    }
  }

  lemma AdvancesNot(f: Formula, p: Lit)
    ensures Advances(f, f, p)
  {
  }

  lemma ImpliedLater(f: Formula, g: Formula, p: Lit, c: set<Lit>)
    requires Advances(f, g, p) && Implied(Without(f, p), c)
    ensures Implied(Without(g, p), c)
  {
  }

  /** An implied clause without the pivot is added. */
  lemma AddImplied(f: Formula, c: set<Lit>, p: Lit)
    requires (forall m: Model :: Models(m, f) ==> SatLits(c, m)) && p !in c && Neg(p) !in c
    ensures Advances(f, f + {c}, p)
  {
    assert Without(f, p) <= Without(f + {c}, p);
  }

  /** A clause implied, even without the pivot, by the others is removed. */
  lemma RemoveImplied(f: Formula, g: Formula, p: Lit, c: set<Lit>)
    requires g <= f <= g + {c} && Implied(Without(g, p), c - {p, Neg(p)})
    ensures Advances(f, g, p)
  {
    forall m: Model | Models(m, g)
      ensures Models(m, f)
    {
      assert Models(m, Without(g, p));
      var l :| l in c - {p, Neg(p)} && True(l, m);
      assert l in c;
    }
    forall m: Model | Models(m, Without(g, p))
      ensures Models(m, Without(f, p))
    {
      assert SatLits(c - {p, Neg(p)}, m);
      if p !in c && Neg(p) !in c {
        assert c - {p, Neg(p)} == c;
      }
    }
  }
}

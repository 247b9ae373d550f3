/** Propagation over occurrence lists until nothing is left to do: which clauses are
    known not to be unit (elim_propagate). */
module UnitClosure {
  import opened Logic
  import opened Clauses

  /** The clause is satisfied, or two of its literals are unassigned. */
  ghost predicate Quiet(c: Clause, vals: map<int, bool>) {
    HasTrue(c, vals) || exists i, j :: 0 <= i < j < |c| && Val(c[i], vals) == 0 && Val(c[j], vals) == 0
  }

  /** All clauses left with the negation of `l` are quiet. */
  ghost predicate QuietOn(l: Lit, literals: map<nat, Clause>, garbage: set<nat>, occs: map<Lit, seq<nat>>,
        vals: map<int, bool>) {
    Neg(l) in occs ==> forall r :: r in occs[Neg(l)] && r in literals && r !in garbage ==> Quiet(literals[r], vals)
  }

  /** Not false at first, and not false because of the literals that are done. */
  ghost predicate Spared(x: Lit, vals0: map<int, bool>, done: seq<Lit>) {
    Val(x, vals0) >= 0 && Neg(x) !in done
  }

  ghost predicate Held(c: Clause, vals: map<int, bool>, vals0: map<int, bool>, done: seq<Lit>) {
    || HasTrue(c, vals)
    || exists i, j :: 0 <= i < j < |c| && Spared(c[i], vals0, done) && Spared(c[j], vals0, done)
  }

  /** The clauses left with the negation of a literal that is done. */
  ghost predicate AllHeld(literals: map<nat, Clause>, garbage: set<nat>, occs: map<Lit, seq<nat>>, vals: map<int, bool>,
        vals0: map<int, bool>, done: seq<Lit>) {
    forall r :: r in literals && r !in garbage && Touched(r, occs, done) ==> Held(literals[r], vals, vals0, done)
  }

  ghost predicate Touched(r: nat, occs: map<Lit, seq<nat>>, done: seq<Lit>) {
    exists l :: l in done && Neg(l) in occs && r in occs[Neg(l)]
  }

  /** The first `k` clauses of a list. */
  ghost predicate ListHeld(ns: seq<nat>, k: nat, literals: map<nat, Clause>, garbage: set<nat>, vals: map<int, bool>,
        vals0: map<int, bool>, done: seq<Lit>)
    requires k <= |ns|
  {
    forall j :: 0 <= j < k && ns[j] in literals && ns[j] !in garbage ==> Held(literals[ns[j]], vals, vals0, done)
  }

  lemma NothingHeld(literals: map<nat, Clause>, garbage: set<nat>, occs: map<Lit, seq<nat>>, vals: map<int, bool>,
        vals0: map<int, bool>, ns: seq<nat>, done: seq<Lit>)
    ensures AllHeld(literals, garbage, occs, vals, vals0, []) && ListHeld(ns, 0, literals, garbage, vals, vals0, done)
  {
  }

  lemma HeldLater(c: Clause, vals: map<int, bool>, now: map<int, bool>, vals0: map<int, bool>, done: seq<Lit>)
    requires Held(c, vals, vals0, done) && forall v :: v in vals ==> v in now && now[v] == vals[v]
    ensures Held(c, now, vals0, done)
  {
    if l :| l in c && Val(l, vals) > 0 {
      assert Val(l, now) > 0;
    }
  }

  lemma AllHeldLater(literals: map<nat, Clause>, garbage: set<nat>, more: set<nat>, occs: map<Lit, seq<nat>>,
        vals: map<int, bool>, now: map<int, bool>, vals0: map<int, bool>, done: seq<Lit>)
    requires garbage <= more && forall v :: v in vals ==> v in now && now[v] == vals[v]
    requires AllHeld(literals, garbage, occs, vals, vals0, done)
    ensures AllHeld(literals, more, occs, now, vals0, done)
  {
    hide Held, Touched;
    forall r | r in literals && r !in more && Touched(r, occs, done)
      ensures Held(literals[r], now, vals0, done)
    {
      HeldLater(literals[r], vals, now, vals0, done);
    }
  }

  /** One more clause of the list has been visited. */
  lemma ListHeldNext(ns: seq<nat>, k: nat, literals: map<nat, Clause>, garbage: set<nat>, more: set<nat>,
        vals: map<int, bool>, now: map<int, bool>, vals0: map<int, bool>, done: seq<Lit>)
    requires k < |ns| && garbage <= more && forall v :: v in vals ==> v in now && now[v] == vals[v]
    requires ListHeld(ns, k, literals, garbage, vals, vals0, done)
    requires ns[k] in literals && ns[k] !in more ==> Held(literals[ns[k]], now, vals0, done)
    ensures ListHeld(ns, k + 1, literals, more, now, vals0, done)
  {
    hide Held;
    forall j | 0 <= j < k + 1 && ns[j] in literals && ns[j] !in more
      ensures Held(literals[ns[j]], now, vals0, done)
    {
      if j < k {
        HeldLater(literals[ns[j]], vals, now, vals0, done);
      }
    }
  }

  lemma HeldOpen(c: Clause, vals: map<int, bool>, vals0: map<int, bool>, done: seq<Lit>)
    requires exists i, j :: 0 <= i < j < |c| && Val(c[i], vals) == 0 && Val(c[j], vals) == 0
    requires forall v :: v in vals0 ==> v in vals && vals[v] == vals0[v]
    requires forall l :: l in done ==> Val(l, vals) > 0
    ensures Held(c, vals, vals0, done)
  {
    var i, j :| 0 <= i < j < |c| && Val(c[i], vals) == 0 && Val(c[j], vals) == 0;
    assert Spared(c[i], vals0, done) && Spared(c[j], vals0, done);
  }

  lemma HeldUnit(c: Clause, u: Lit, vals: map<int, bool>, vals0: map<int, bool>, done: seq<Lit>)
    requires u in c && Val(u, vals) > 0
    ensures Held(c, vals, vals0, done)
  {
  }

  /** A list is done: with its literal all clauses touched are held. */
  lemma HeldNext(literals: map<nat, Clause>, garbage: set<nat>, occs: map<Lit, seq<nat>>, vals: map<int, bool>,
        vals0: map<int, bool>, done: seq<Lit>, l: Lit)
    requires AllHeld(literals, garbage, occs, vals, vals0, done) && Neg(l) in occs
    requires ListHeld(occs[Neg(l)], |occs[Neg(l)]|, literals, garbage, vals, vals0, done + [l])
    requires forall r :: r in literals && r !in garbage && Neg(l) in literals[r] ==> r in occs[Neg(l)]
    ensures AllHeld(literals, garbage, occs, vals, vals0, done + [l])
  {
    forall r | r in literals && r !in garbage && Touched(r, occs, done + [l])
      ensures Held(literals[r], vals, vals0, done + [l])
    {
      if r in occs[Neg(l)] {
        var j :| 0 <= j < |occs[Neg(l)]| && occs[Neg(l)][j] == r;
      } else {
        assert Touched(r, occs, done);
        SparedNext(literals[r], vals, vals0, done, l);
      }
    }
  }

  lemma SparedNext(c: Clause, vals: map<int, bool>, vals0: map<int, bool>, done: seq<Lit>, l: Lit)
    requires Held(c, vals, vals0, done) && Neg(l) !in c
    ensures Held(c, vals, vals0, done + [l])
  {
    if !HasTrue(c, vals) {
      var i, j :| 0 <= i < j < |c| && Spared(c[i], vals0, done) && Spared(c[j], vals0, done);
      assert Neg(Neg(c[i])) == c[i] && Neg(Neg(c[j])) == c[j];
      assert c[i] in c && c[j] in c;
      assert Spared(c[i], vals0, done + [l]) && Spared(c[j], vals0, done + [l]);
    }
  }

  lemma SparedUnassigned(x: Lit, vals: map<int, bool>, vals0: map<int, bool>, done: seq<Lit>)
    requires Spared(x, vals0, done) && Val(x, vals) <= 0
    requires Val(Neg(x), vals) > 0 && Val(Neg(x), vals0) == 0 ==> Neg(x) in done
    requires forall v :: v in vals0 ==> v in vals && vals[v] == vals0[v]
    ensures Val(x, vals) == 0
  {
  }

  /** When all new true literals are done, what is held is quiet. */
  lemma HeldIsQuiet(c: Clause, vals: map<int, bool>, vals0: map<int, bool>, done: seq<Lit>)
    requires Held(c, vals, vals0, done) && forall l :: Val(l, vals) > 0 && Val(l, vals0) == 0 ==> l in done
    requires forall v :: v in vals0 ==> v in vals && vals[v] == vals0[v]
    ensures Quiet(c, vals)
  {
    if !HasTrue(c, vals) {
      var i, j :| 0 <= i < j < |c| && Spared(c[i], vals0, done) && Spared(c[j], vals0, done);
      forall k | k == i || k == j
        ensures Val(c[k], vals) == 0
      {
        assert c[k] in c;
        SparedUnassigned(c[k], vals, vals0, done);
      }
    }
  }

  lemma AllQuiet(literals: map<nat, Clause>, garbage: set<nat>, occs: map<Lit, seq<nat>>, vals: map<int, bool>,
        vals0: map<int, bool>, done: seq<Lit>)
    requires AllHeld(literals, garbage, occs, vals, vals0, done)
    requires forall l :: Val(l, vals) > 0 && Val(l, vals0) == 0 ==> l in done
    requires forall v :: v in vals0 ==> v in vals && vals[v] == vals0[v]
    ensures forall l :: l in done ==> QuietOn(l, literals, garbage, occs, vals)
  {
    hide Held, Quiet;
    forall l | l in done
      ensures QuietOn(l, literals, garbage, occs, vals)
    {
      if Neg(l) in occs {
        forall r | r in occs[Neg(l)] && r in literals && r !in garbage
          ensures Quiet(literals[r], vals)
        {
          assert Touched(r, occs, done);
          HeldIsQuiet(literals[r], vals, vals0, done);
        }
      }
    }
  }
}

/** Unit propagation of the proof checker on values: what follows from the original
    clauses, and which watches are safe. */
module Propagation {
  import opened Logic
  import opened Clauses
  import opened Watching

  /** In every model of the originals that falsifies `c` the assigned literals have
      their values. */
  ghost predicate Follows(orig: Formula, c: Clause, vals: map<int, bool>) {
    forall m: Model :: Models(m, orig) && !SatClause(c, m) ==> Agrees(m, vals)
  }

  /** All clauses stored, deleted ones included, are implied by the originals. */
  ghost predicate AllImplied(orig: Formula, literals: map<nat, Clause>) {
    forall r :: r in literals ==> Consequence(orig, Lits(literals[r]))
  }

  /** A clause with all literals but one false makes that one true. */
  lemma UnitFollows(orig: Formula, c: Clause, vals: map<int, bool>, d: Clause, l: Lit)
    requires Follows(orig, c, vals) && Consequence(orig, Lits(d)) && Val(l, vals) == 0
    requires forall k :: k in d && k != l ==> Val(k, vals) < 0
    ensures Follows(orig, c, SetFalse(Neg(l), vals))
  {
    forall m: Model | Models(m, orig) && !SatClause(c, m)
      ensures Agrees(m, SetFalse(Neg(l), vals))
    {
      var k :| k in Lits(d) && True(k, m);
      AgreesTrue(m, vals, k);
    }
  }

  /** A falsified clause refutes the negation of `c`. */
  lemma ConflictFollows(orig: Formula, c: Clause, vals: map<int, bool>, d: Clause)
    requires Follows(orig, c, vals) && Consequence(orig, Lits(d)) && forall k :: k in d ==> Val(k, vals) < 0
    ensures Consequence(orig, Lits(c))
  {
    forall m: Model | Models(m, orig)
      ensures SatLits(Lits(c), m)
    {
      SatLitsOfClause(c, m);
      var k :| k in Lits(d) && True(k, m);
      if !SatClause(c, m) {
        AgreesTrue(m, vals, k);
      }
    }
  }

  /** The negated literals of `c` are assumed. */
  lemma AssumeFollows(orig: Formula, c: Clause, vals: map<int, bool>, l: Lit)
    requires Follows(orig, c, vals) && l in c && Val(l, vals) == 0
    ensures Follows(orig, c, SetFalse(l, vals))
  {
    forall m: Model | Models(m, orig) && !SatClause(c, m)
      ensures Agrees(m, SetFalse(l, vals))
    {
      assert !True(l, m);
    }
  }

  lemma WeakerFollows(orig: Formula, c: Clause, vals: map<int, bool>)
    requires Follows(orig, [], vals)
    ensures Follows(orig, c, vals)
  {
    forall m: Model | Models(m, orig)
      ensures Agrees(m, vals)
    {
      assert !SatClause([], m);
    }
  }

  // ---------------------------------------------------------------- watches

  /** A false watched literal is harmless: the clause is satisfied, or the literal is
      still to be propagated. */
  ghost predicate SafeWatch(x: Lit, c: Clause, vals: map<int, bool>, pending: seq<Lit>) {
    Val(x, vals) < 0 ==> HasTrue(c, vals) || Neg(x) in pending
  }

  ghost predicate SafeClause(c: Clause, vals: map<int, bool>, pending: seq<Lit>) {
    |c| >= 2 && SafeWatch(c[0], c, vals, pending) && SafeWatch(c[1], c, vals, pending)
  }

  /** All watches are safe. */
  ghost predicate Safe(literals: map<nat, Clause>, garbage: set<nat>, vals: map<int, bool>, pending: seq<Lit>) {
    forall r :: r in literals && r !in garbage ==> SafeClause(literals[r], vals, pending)
  }

  /** Safe, except that the watches of `l` in `rest` have not been visited. */
  ghost predicate SafeBut(literals: map<nat, Clause>, garbage: set<nat>, vals: map<int, bool>, pending: seq<Lit>,
        l: Lit, rest: seq<Watch>) {
    forall r :: r in literals && r !in garbage ==> SafeClauseBut(r, literals[r], vals, pending, l, rest)
  }

  ghost predicate SafeClauseBut(r: nat, c: Clause, vals: map<int, bool>, pending: seq<Lit>, l: Lit, rest: seq<Watch>) {
    && |c| >= 2
    && (SafeWatch(c[0], c, vals, pending) || (c[0] == l && Has(rest, r)))
    && (SafeWatch(c[1], c, vals, pending) || (c[1] == l && Has(rest, r)))
  }

  /** No live clause is falsified or unit: the assignment is a fixpoint of unit
      propagation over the live clauses. */
  ghost predicate Fixpoint(literals: map<nat, Clause>, garbage: set<nat>, vals: map<int, bool>) {
    forall r :: r in literals && r !in garbage ==>
      || HasTrue(literals[r], vals)
      || exists i, j :: 0 <= i < j < |literals[r]| && Val(literals[r][i], vals) == 0 && Val(literals[r][j], vals) == 0
  }

  lemma SafeIsFixpoint(literals: map<nat, Clause>, garbage: set<nat>, vals: map<int, bool>)
    requires Safe(literals, garbage, vals, [])
    ensures Fixpoint(literals, garbage, vals)
  {
    forall r | r in literals && r !in garbage && !HasTrue(literals[r], vals)
      ensures exists i, j ::
        0 <= i < j < |literals[r]| && Val(literals[r][i], vals) == 0 && Val(literals[r][j], vals) == 0
    {
      var c := literals[r];
      assert SafeClause(c, vals, []);
      assert c[0] in c && c[1] in c;
      assert Val(c[0], vals) == 0 && Val(c[1], vals) == 0;
    }
  }

  lemma HasTrueLater(c: Clause, vals: map<int, bool>, l: Lit)
    requires Val(l, vals) == 0
    ensures HasTrue(c, vals) ==> HasTrue(c, SetFalse(Neg(l), vals))
    ensures l in c ==> HasTrue(c, SetFalse(Neg(l), vals))
  {
    var now := SetFalse(Neg(l), vals);
    if HasTrue(c, vals) {
      var k :| k in c && Val(k, vals) > 0;
      assert Val(k, now) > 0;
    }
    assert Val(l, now) > 0;
  }

  /** Assigning `l` makes only `-l` false, which is pending then. */
  lemma SafeWatchAssign(x: Lit, c: Clause, vals: map<int, bool>, pending: seq<Lit>, l: Lit)
    requires Val(l, vals) == 0
    ensures SafeWatch(x, c, vals, pending) ==> SafeWatch(x, c, SetFalse(Neg(l), vals), pending + [l])
  {
    HasTrueLater(c, vals, l);
    if x == Neg(l) {
      assert Neg(x) in pending + [l];
    }
  }

  lemma SafeAssign(literals: map<nat, Clause>, garbage: set<nat>, vals: map<int, bool>, pending: seq<Lit>, l: Lit)
    requires Safe(literals, garbage, vals, pending) && Val(l, vals) == 0
    ensures Safe(literals, garbage, SetFalse(Neg(l), vals), pending + [l])
  {
    hide SafeWatch;
    forall r | r in literals && r !in garbage
      ensures SafeClause(literals[r], SetFalse(Neg(l), vals), pending + [l])
    {
      SafeWatchAssign(literals[r][0], literals[r], vals, pending, l);
      SafeWatchAssign(literals[r][1], literals[r], vals, pending, l);
    }
  }

  lemma SafeButAssign(literals: map<nat, Clause>, garbage: set<nat>, vals: map<int, bool>, pending: seq<Lit>, l: Lit,
        rest: seq<Watch>, x: Lit)
    requires SafeBut(literals, garbage, vals, pending, l, rest) && Val(x, vals) == 0
    ensures SafeBut(literals, garbage, SetFalse(Neg(x), vals), pending + [x], l, rest)
  {
    hide SafeWatch, Has;
    forall r | r in literals && r !in garbage
      ensures SafeClauseBut(r, literals[r], SetFalse(Neg(x), vals), pending + [x], l, rest)
    {
      SafeWatchAssign(literals[r][0], literals[r], vals, pending, x);
      SafeWatchAssign(literals[r][1], literals[r], vals, pending, x);
    }
  }

  /** Propagating a literal starts with all watches of its negation. */
  lemma StartVisit(literals: map<nat, Clause>, garbage: set<nat>, vals: map<int, bool>, pending: seq<Lit>,
        watches: WatchLists, p: Lit)
    requires Safe(literals, garbage, vals, [p] + pending) && Watched(literals, garbage, watches) && Neg(p) in watches
    ensures SafeBut(literals, garbage, vals, pending, Neg(p), watches[Neg(p)])
  {
    hide Has, AllLists;
    forall r | r in literals && r !in garbage
      ensures SafeClauseBut(r, literals[r], vals, pending, Neg(p), watches[Neg(p)])
    {
      assert SafeClause(literals[r], vals, [p] + pending);
      assert WatchedClause(r, literals[r], watches);
      StartWatch(literals[r][0], literals[r], vals, pending, p);
      StartWatch(literals[r][1], literals[r], vals, pending, p);
    }
  }

  lemma StartWatch(x: Lit, c: Clause, vals: map<int, bool>, pending: seq<Lit>, p: Lit)
    requires SafeWatch(x, c, vals, [p] + pending)
    ensures SafeWatch(x, c, vals, pending) || x == Neg(p)
  {
    assert Neg(x) == p ==> x == Neg(p);
  }

  lemma EndVisit(literals: map<nat, Clause>, garbage: set<nat>, vals: map<int, bool>, pending: seq<Lit>, l: Lit,
        rest: seq<Watch>)
    requires SafeBut(literals, garbage, vals, pending, l, rest) && rest == []
    ensures Safe(literals, garbage, vals, pending)
  {
    hide SafeWatch;
    forall r | r in literals && r !in garbage
      ensures SafeClause(literals[r], vals, pending)
    {
      assert SafeClauseBut(r, literals[r], vals, pending, l, rest);
      assert !Has(rest, r);
    }
  }

  /** A clause that is satisfied, or dropped, need not be visited. */
  lemma Visited(literals: map<nat, Clause>, garbage: set<nat>, vals: map<int, bool>, pending: seq<Lit>, l: Lit,
        w: Watch, b: seq<Watch>)
    requires SafeBut(literals, garbage, vals, pending, l, [w] + b)
    requires w.clause in literals && w.clause !in garbage ==> HasTrue(literals[w.clause], vals)
    ensures SafeBut(literals, garbage, vals, pending, l, b)
  {
    forall r | r in literals && r !in garbage
      ensures SafeClauseBut(r, literals[r], vals, pending, l, b)
    {
      assert SafeClauseBut(r, literals[r], vals, pending, l, [w] + b);
      HasSplit([w], b, r);
      assert [w][0] == w;
    }
  }

  /** The two watched literals change places. */
  lemma SecondSafe(literals: map<nat, Clause>, garbage: set<nat>, vals: map<int, bool>, pending: seq<Lit>, l: Lit,
        rest: seq<Watch>, r: nat)
    requires SafeBut(literals, garbage, vals, pending, l, rest) && r in literals && |literals[r]| >= 2
    requires l == literals[r][0] || l == literals[r][1]
    ensures SafeBut(literals[r := SecondWatch(literals[r], l)], garbage, vals, pending, l, rest)
  {
    hide Has, SafeWatch;
    var c := literals[r];
    var d := SecondWatch(c, l);
    SameLiterals(c, d);
    var now := literals[r := d];
    forall q | q in now && q !in garbage
      ensures SafeClauseBut(q, now[q], vals, pending, l, rest)
    {
      assert SafeClauseBut(q, literals[q], vals, pending, l, rest);
      if q == r {
        assert d[0] in {c[0], c[1]} && d[1] in {c[0], c[1]} && c[0] in {d[0], d[1]} && c[1] in {d[0], d[1]};
        SameSafe(c[0], c, d, vals, pending);
        SameSafe(c[1], c, d, vals, pending);
      }
    }
  }

  lemma SameSafe(x: Lit, c: Clause, d: Clause, vals: map<int, bool>, pending: seq<Lit>)
    requires forall l :: l in c <==> l in d
    ensures SafeWatch(x, c, vals, pending) <==> SafeWatch(x, d, vals, pending)
  {
    assert HasTrue(c, vals) <==> HasTrue(d, vals);
  }

  /** The second watch moves to a literal that is not false. */
  lemma MovedSafe(literals: map<nat, Clause>, garbage: set<nat>, vals: map<int, bool>, pending: seq<Lit>, l: Lit,
        w: Watch, b: seq<Watch>, k: nat)
    requires SafeBut(literals, garbage, vals, pending, l, [w] + b) && w.clause in literals
    requires 2 <= k < |literals[w.clause]|
    requires literals[w.clause][1] == l && literals[w.clause][0] != l && Val(literals[w.clause][k], vals) >= 0
    ensures SafeBut(literals[w.clause := Exchange(literals[w.clause], 1, k)], garbage, vals, pending, l, b)
  {
    hide Has;
    var r, c := w.clause, literals[w.clause];
    var d := Exchange(c, 1, k);
    SameLiterals(c, d);
    var now := literals[r := d];
    forall q | q in now && q !in garbage
      ensures SafeClauseBut(q, now[q], vals, pending, l, b)
    {
      assert SafeClauseBut(q, literals[q], vals, pending, l, [w] + b);
      if q == r {
        SameSafe(c[0], c, d, vals, pending);
      } else {
        OtherWatch(w, b, q);
      }
    }
  }

  lemma OtherWatch(w: Watch, b: seq<Watch>, q: nat)
    requires q != w.clause
    ensures Has([w] + b, q) <==> Has(b, q)
  {
    HasSplit([w], b, q);
  }

  // ---------------------------------------------------------- the root assignment

  ghost predicate Below(vals0: map<int, bool>, vals: map<int, bool>) {
    forall v :: v in vals0 ==> v in vals && vals[v] == vals0[v]
  }

  lemma SecondRoot(literals: map<nat, Clause>, garbage: set<nat>, vals0: map<int, bool>, l: Lit, r: nat)
    requires Safe(literals, garbage, vals0, []) && r in literals && |literals[r]| >= 2
    requires (l == literals[r][0] || l == literals[r][1])
    ensures Safe(literals[r := SecondWatch(literals[r], l)], garbage, vals0, [])
  {
    hide SafeWatch;
    var c := literals[r];
    var d := SecondWatch(c, l);
    SameLiterals(c, d);
    var now := literals[r := d];
    forall q | q in now && q !in garbage
      ensures SafeClause(now[q], vals0, [])
    {
      assert SafeClause(literals[q], vals0, []);
      if q == r {
        assert d[0] in {c[0], c[1]} && d[1] in {c[0], c[1]};
        SameSafe(c[0], c, d, vals0, []);
        SameSafe(c[1], c, d, vals0, []);
      }
    }
  }

  /** Watches only move to literals that are not false, hence not false at root level
      either. */
  lemma MovedRoot(literals: map<nat, Clause>, garbage: set<nat>, vals0: map<int, bool>, vals: map<int, bool>, r: nat,
        k: nat)
    requires Safe(literals, garbage, vals0, []) && Below(vals0, vals) && r in literals && 2 <= k < |literals[r]|
    requires Val(literals[r][k], vals) >= 0
    ensures Safe(literals[r := Exchange(literals[r], 1, k)], garbage, vals0, [])
  {
    var c := literals[r];
    var d := Exchange(c, 1, k);
    SameLiterals(c, d);
    var now := literals[r := d];
    forall q | q in now && q !in garbage
      ensures SafeClause(now[q], vals0, [])
    {
      assert SafeClause(literals[q], vals0, []);
      if q == r {
        SameSafe(c[0], c, d, vals0, []);
        assert Val(d[1], vals0) >= 0;
      }
    }
  }

  // ------------------------------------------------------------------ the trail

  /** The assignment and the trail have grown together. */
  ghost predicate Grown(vals0: map<int, bool>, trail0: seq<Lit>, vals: map<int, bool>, trail: seq<Lit>) {
    && trail0 <= trail && Below(vals0, vals) && NoDuplicates(trail[|trail0|..])
    && (forall v :: v in vals ==> v in vals0 || v in ClauseVars(trail[|trail0|..]))
    && (forall l :: l in trail[|trail0|..] ==> Var(l) !in vals0 && Val(l, vals) > 0)
  }

  lemma GrownNot(vals: map<int, bool>, trail: seq<Lit>)
    ensures Grown(vals, trail, vals, trail)
  {
    assert trail[|trail|..] == [];
  }

  lemma GrownAssign(vals0: map<int, bool>, trail0: seq<Lit>, vals: map<int, bool>, trail: seq<Lit>, l: Lit)
    requires Grown(vals0, trail0, vals, trail) && Val(l, vals) == 0
    ensures Grown(vals0, trail0, SetFalse(Neg(l), vals), trail + [l])
  {
    var now := SetFalse(Neg(l), vals);
    var added := trail[|trail0|..];
    assert (trail + [l])[|trail0|..] == added + [l];
    forall v | v in now
      ensures v in vals0 || v in ClauseVars(added + [l])
    {
      if v == Var(l) {
        assert l in added + [l];
      } else if v !in vals0 {
        var k :| k in added && Var(k) == v;
        assert k in added + [l];
      }
    }
    forall k | k in added + [l]
      ensures Var(k) !in vals0 && Val(k, now) > 0 && (k in added ==> k != l)
    {
      if k in added {
        assert Val(k, vals) > 0;
      }
    }
    forall i, j | 0 <= i < j < |added + [l]|
      ensures (added + [l])[i] != (added + [l])[j]
    {
      assert (added + [l])[i] in added;
    }
  }

  lemma GrownPop(vals0: map<int, bool>, trail0: seq<Lit>, vals: map<int, bool>, trail: seq<Lit>)
    requires Grown(vals0, trail0, vals, trail) && |trail| > |trail0|
    ensures var l := trail[|trail| - 1]; Val(l, vals) > 0 && Grown(vals0, trail0, vals - {Var(l)}, trail[..|trail| - 1])
  {
    var k := |trail| - 1;
    var l, now := trail[k], vals - {Var(trail[k])};
    var added, less := trail[|trail0|..], trail[..k][|trail0|..];
    assert added == less + [l] && l in added;
    forall v | v in now
      ensures v in vals0 || v in ClauseVars(less)
    {
      if v !in vals0 {
        var x :| x in added && Var(x) == v;
        assert x in less;
      }
    }
    assert l !in less;
    GrownPopRest(vals0, vals, less, l);
  }

  lemma GrownPopRest(vals0: map<int, bool>, vals: map<int, bool>, less: seq<Lit>, l: Lit)
    requires forall x :: x in less + [l] ==> Var(x) !in vals0 && Val(x, vals) > 0
    ensures forall x :: x in less && x != l ==> Var(x) !in vals0 && Val(x, vals - {Var(l)}) > 0
  {
    assert l in less + [l];
    forall x | x in less && x != l
      ensures Var(x) !in vals0 && Val(x, vals - {Var(l)}) > 0
    {
      assert x in less + [l];
    }
  }
}

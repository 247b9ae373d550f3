/** Covered clause elimination: literals are added to a candidate clause by
    asymmetric and covered literal addition until the extended clause is blocked
    or subsumed.  Only the covered literals are kept for reconstruction. */
module Cover {
  import opened Logic
  import opened Reconstruction
  import opened Extension
  import opened Clauses
  import opened Watching
  import opened CoverWatches
  import opened CoverSchedule

  // ------------------------------------------------------------- invariants

  /** In every model of the other clauses that falsifies the covered literals,
      all added literals, covered or asymmetric, are false. */
  ghost predicate Forced(f: Formula, covered: Clause, vals: map<int, bool>) {
    forall m: Model :: Models(m, f) && !SatClause(covered, m) ==> Agrees(m, vals)
  }

  /** Replaying `es` turns models of `f` that satisfy the covered literals into
      models that also satisfy the candidate `c`. */
  ghost predicate Repairs(f: Formula, es: seq<Entry>, covered: Clause, c: set<Lit>) {
    forall m: Model :: Models(m, f) && SatClause(covered, m) ==> Models(Replay(es, m), f + {c})
  }

  ghost predicate AlwaysCovered(f: Formula, covered: Clause) {
    forall m: Model :: Models(m, f) ==> SatClause(covered, m)
  }

  /** `clause` and `covered` say the same in all models of `f`. */
  ghost predicate SameOn(f: Formula, clause: Clause, covered: Clause) {
    forall m: Model :: Models(m, f) ==> (SatClause(clause, m) <==> SatClause(covered, m))
  }

  /** An asymmetric literal: all literals of another clause but `other` are false. */
  lemma AsymmetricLiteral(f: Formula, covered: Clause, vals: map<int, bool>, d: set<Lit>, other: Lit)
    requires Forced(f, covered, vals) && d in f
    requires forall l :: l in d && l != other ==> Val(l, vals) < 0
    requires Val(other, vals) == 0
    ensures Forced(f, covered, SetFalse(Neg(other), vals))
  {
    forall m: Model | Models(m, f) && !SatClause(covered, m)
      ensures Agrees(m, SetFalse(Neg(other), vals))
    {
      var l :| l in d && True(l, m);
      AgreesTrue(m, vals, l);
    }
  }

  /** All literals of another clause are false: it subsumes the extended clause. */
  lemma Subsuming(f: Formula, covered: Clause, vals: map<int, bool>, d: set<Lit>)
    requires Forced(f, covered, vals) && d in f
    requires forall l :: l in d ==> Val(l, vals) < 0
    ensures AlwaysCovered(f, covered)
  {
    forall m: Model | Models(m, f)
      ensures SatClause(covered, m)
    {
      if !SatClause(covered, m) {
        var l :| l in d && True(l, m);
        AgreesTrue(m, vals, l);
      }
    }
  }

  /** `d` has a true literal besides `-lit`. */
  ghost predicate DoublySatisfied(d: set<Lit>, lit: Lit, vals: map<int, bool>) {
    exists k :: k in d && k != Neg(lit) && Val(k, vals) > 0
  }

  /** Every resolution candidate is doubly satisfied or has all literals of the
      intersection. */
  ghost predicate Intersects(f: Formula, lit: Lit, vals: map<int, bool>, intersection: seq<Lit>) {
    forall d :: d in f && Neg(lit) in d ==>
      DoublySatisfied(d, lit, vals) || (intersection != [] && forall x :: x in intersection ==> x in d)
  }

  /** Flipping a false literal keeps clauses that have another true one. */
  lemma FlipKeeps(f: Formula, lit: Lit, m: Model)
    requires Models(m, f) && !True(lit, m)
    requires forall d :: d in f && Neg(lit) in d ==> exists k :: k in d && k != Neg(lit) && True(k, m)
    ensures Models(SetTrue(lit, m), f)
  {
    var n := SetTrue(lit, m);
    forall d | d in f
      ensures SatLits(d, n)
    {
      if Neg(lit) in d {
        var k :| k in d && k != Neg(lit) && True(k, m);
        assert True(k, n);
      } else {
        var k :| k in d && True(k, m);
        assert True(k, n);
      }
    }
  }

  /** Replaying one entry in a model that falsifies the covered literals before
      the step, but satisfies those after it. */
  lemma ReplayStep(f: Formula, covered: Clause, vals: map<int, bool>, lit: Lit, intersection: seq<Lit>, e: Entry,
        m: Model)
    requires Forced(f, covered, vals) && Intersects(f, lit, vals, intersection)
    requires lit in covered && Val(lit, vals) < 0 && e.cube == [lit] && SameOn(f, e.clause, covered)
    requires forall x :: x in intersection ==> Val(x, vals) == 0
    requires Models(m, f) && (SatClause(covered + intersection, m) || intersection == [])
    ensures Models(ReplayEntry(e, m), f) && SatClause(covered, ReplayEntry(e, m))
  {
    if !SatClause(covered, m) {
      assert Agrees(m, vals) && !True(lit, m);
      forall d | d in f && Neg(lit) in d
        ensures exists k :: k in d && k != Neg(lit) && True(k, m)
      {
        if DoublySatisfied(d, lit, vals) {
          var k :| k in d && k != Neg(lit) && Val(k, vals) > 0;
          AgreesTrue(m, vals, k);
        } else {
          var k :| k in covered + intersection && True(k, m);
          assert k in intersection && k in d;
        }
      }
      FlipKeeps(f, lit, m);
      var n := SetTrue(lit, m);
      assert [lit][..0] == [] && MakeTrue([lit], m) == MakeTrue([], n) == n;
      assert True(lit, n);
    }
  }

  /** A covered literal addition step, seen from the reconstruction. */
  lemma CoveredLiterals(f: Formula, covered: Clause, vals: map<int, bool>, lit: Lit, intersection: seq<Lit>,
        es: seq<Entry>, e: Entry, c: set<Lit>)
    requires Forced(f, covered, vals) && Intersects(f, lit, vals, intersection)
    requires lit in covered && Val(lit, vals) < 0 && e.cube == [lit] && SameOn(f, e.clause, covered)
    requires forall x :: x in intersection ==> Val(x, vals) == 0
    requires Repairs(f, es, covered, c)
    ensures Repairs(f, es + [e], covered + intersection, c)
    ensures intersection == [] ==> Reconstructs(f, es + [e], f + {c})
  {
    forall m: Model | Models(m, f) && (SatClause(covered + intersection, m) || intersection == [])
      ensures Models(Replay(es + [e], m), f + {c})
    {
      ReplayStep(f, covered, vals, lit, intersection, e, m);
      assert (es + [e])[..|es + [e]| - 1] == es;
    }
  }

  lemma CoveredForced(f: Formula, covered: Clause, vals: map<int, bool>, x: Lit)
    requires Forced(f, covered, vals)
    ensures Forced(f, covered + [x], SetFalse(x, vals))
  {
    forall m: Model | Models(m, f) && !SatClause(covered + [x], m)
      ensures Agrees(m, SetFalse(x, vals))
    {
      assert x in covered + [x] && !True(x, m);
      assert forall l :: l in covered ==> l in covered + [x];
    }
  }

  lemma SubsumedRepairs(f: Formula, es: seq<Entry>, covered: Clause, c: set<Lit>)
    requires AlwaysCovered(f, covered) && Repairs(f, es, covered, c)
    ensures Reconstructs(f, es, f + {c})
  {
  }

  // ------------------------------------------------------ the private stack

  /** The entry a covered addition step will leave: the blocking literal first,
      then the other covered literals, then those needed to make it implied. */
  function StepEntry(p: Clause, missing: Clause, id: nat): Entry
    requires p != []
  {
    Entry([p[0]], id, p + missing)
  }

  predicate NoneEmpty(ps: seq<Clause>) {
    forall k :: 0 <= k < |ps| ==> ps[k] != []
  }

  function Steps(ps: seq<Clause>, missing: Clause, id: nat): (es: seq<Entry>)
    requires NoneEmpty(ps)
    ensures |es| == |ps|
  {
    seq(|ps|, k requires 0 <= k < |ps| => StepEntry(ps[k], missing, id + 1 + k))
  }

  /** The flat stack on which the steps are kept until the clause is covered. */
  ghost function FlatSteps(ps: seq<Clause>): seq<int> {
    if ps == [] then [] else FlatSteps(ps[..|ps|-1]) + [0] + Flat(ps[|ps|-1])
  }

  lemma FlatStepsAppend(ps: seq<Clause>, p: Clause)
    ensures FlatSteps(ps + [p]) == FlatSteps(ps) + [0] + Flat(p)
  {
    assert (ps + [p])[..|ps + [p]| - 1] == ps;
  }

  lemma StepsAppend(ps: seq<Clause>, p: Clause, missing: Clause, id: nat)
    requires NoneEmpty(ps) && p != []
    ensures NoneEmpty(ps + [p])
    ensures Steps(ps + [p], missing, id) == Steps(ps, missing, id) + [StepEntry(p, missing, id + 1 + |ps|)]
  {
  }

  // ---------------------------------------------------------------- database

  /** The occurrence lists reach every irredundant clause with a literal that is
      not frozen; no clause is empty, unit or a tautology. */
  ghost predicate Connected(literals: map<nat, Clause>, garbage: set<nat>, occs: map<Lit, seq<nat>>, frozen: set<int>,
        vars: set<int>) {
    && 0 !in literals
    && (forall r :: r in literals ==> ClauseVars(literals[r]) <= vars && NoDuplicates(literals[r]))
    && (forall r, l :: r in literals && l in literals[r] ==> Neg(l) !in literals[r])
    && (forall l, r :: l in occs && r in occs[l] ==> r in literals && l in literals[r])
    && (forall r, l :: r in literals && r !in garbage && l in literals[r] && Var(l) !in frozen ==>
          l in occs && r in occs[l])
    && (forall l: Lit :: Var(l) in vars ==> l in occs)
  }

  ghost predicate Positions(literals: map<nat, Clause>, pos: map<nat, nat>) {
    forall r :: r in literals ==> r in pos && 2 <= pos[r] <= |literals[r]|
  }

  ghost predicate HasLists(watches: WatchLists, vars: set<int>) {
    forall l: Lit :: Var(l) in vars ==> l in watches
  }

  lemma HasList(watches: WatchLists, vars: set<int>, l: Lit)
    requires HasLists(watches, vars) && Var(l) in vars
    ensures l in watches
  {
  }

  /** The literals of clause `r`, if there is one, are in the same order. */
  ghost predicate Unmoved(now: map<nat, Clause>, before: map<nat, Clause>, r: nat) {
    r in before ==> r in now && now[r] == before[r]
  }

  /** What remains without clause `c`: the other irredundant clauses and the
      literals fixed at level zero. */
  ghost function Rest(literals: map<nat, Clause>, garbage: set<nat>, c: nat, root: map<int, bool>): Formula {
    Live(literals, garbage + {c}) + Units(root)
  }

  lemma ConnectedReordered(now: map<nat, Clause>, before: map<nat, Clause>, garbage: set<nat>, occs: map<Lit, seq<nat>>,
      frozen: set<int>, vars: set<int>, c: nat, root: map<int, bool>)
    requires Reordered(now, before) && Connected(before, garbage, occs, frozen, vars)
    ensures Connected(now, garbage, occs, frozen, vars)
    ensures Rest(now, garbage, c, root) == Rest(before, garbage, c, root)
  {
    LiveReordered(now, before, garbage + {c});
    forall r | r in now
      ensures forall l :: l in now[r] <==> l in before[r]
      ensures NoDuplicates(now[r]) && ClauseVars(now[r]) == ClauseVars(before[r])
    {
      SameLiterals(before[r], now[r]);
    }
  }

  lemma InRest(literals: map<nat, Clause>, garbage: set<nat>, c: nat, root: map<int, bool>, r: nat)
    requires r in literals && r !in garbage && r != c
    ensures Lits(literals[r]) in Rest(literals, garbage, c, root)
  {
  }

  /** The assignment is that of level zero with the added literals false. */
  ghost predicate Assigned(vals: map<int, bool>, root: map<int, bool>, added: seq<Lit>, vars: set<int>) {
    && vals.Keys <= vars
    && (forall v :: v in vars ==> v > 0)
    && (forall v :: v in root ==> v in vals && vals[v] == root[v])
    && (forall l :: l in added ==> Val(l, vals) < 0 && Var(l) !in root)
    && (forall v :: v in vals ==> v in root || v in ClauseVars(added))
  }

  lemma AddLiteral(vals: map<int, bool>, root: map<int, bool>, added: seq<Lit>, vars: set<int>, l: Lit)
    requires Assigned(vals, root, added, vars) && Val(l, vals) == 0 && Var(l) in vars
    ensures Assigned(SetFalse(l, vals), root, added + [l], vars)
    ensures Free(vars, SetFalse(l, vals)) < Free(vars, vals)
  {
    FewerUnassigned(vals, vars, l);
    forall v | v in SetFalse(l, vals)
      ensures v in root || v in ClauseVars(added + [l])
    {
      if v == Var(l) {
        assert l in added + [l];
      } else if v !in root {
        var k :| k in added && Var(k) == v;
        assert k in added + [l];
      }
    }
  }

  /** Nothing was added, or there are fewer unassigned variables. */
  ghost predicate Progress(vars: set<int>, vals0: map<int, bool>, added0: seq<Lit>, next0: nat, vals: map<int, bool>,
        added: seq<Lit>, next: nat) {
    || (vals == vals0 && added == added0 && next == next0)
    || (Free(vars, vals) < Free(vars, vals0) && added0 <= added && next == 0)
  }

  class Coveror {
    const root: map<int, bool>  // the literals fixed at level zero
    const frozen: set<int>
    const vars: set<int>
    const proof: bool
    var literals: map<nat, Clause>  // the irredundant clauses
    var pos: map<nat, nat>
    var garbage: set<nat>
    var watches: WatchLists
    var occs: map<Lit, seq<nat>>
    var vals: map<int, bool>
    var extension: seq<Entry>
    var clauseId: nat
    var added: seq<Lit>         // acts as trail
    var extend: seq<int>        // private extension stack
    var covered: seq<Lit>       // clause literals or added as covered
    var intersection: seq<Lit>
    var marks: set<Lit>
    var nextAdded: nat
    var nextCovered: nat
    var propagations: nat       // effort of covered clause elimination so far
    ghost var steps: seq<Clause> // what is on the private extension stack

    ghost predicate Database()
      reads this`literals, this`pos, this`garbage, this`watches, this`occs
    {
      && Connected(literals, garbage, occs, frozen, vars) && Positions(literals, pos)
      && Watched(literals, garbage, watches) && HasLists(watches, vars)
    }

    /** `asymmetric_literal_addition`. */
    method AddAsymmetric(lit: Lit)
      requires Val(lit, vals) == 0 && Var(lit) in vars && Assigned(vals, root, added, vars)
      modifies this`vals, this`added, this`nextCovered
      ensures vals == SetFalse(lit, old(vals)) && added == old(added) + [lit] && nextCovered == 0
      ensures Assigned(vals, root, added, vars) && Free(vars, vals) < Free(vars, old(vals))
    {
      AddLiteral(vals, root, added, vars, lit);
      vals := SetFalse(lit, vals);
      added := added + [lit];
      nextCovered := 0;
    }

    /** A literal after the first two that is not false: first those from the
        saved position on, then those before it. */
    method FindReplacement(c: Clause, middle: nat) returns (k: nat, v: int)
      requires 2 <= middle <= |c|
      ensures 2 <= k <= |c|
      ensures v >= 0 ==> k < |c| && v == Val(c[k], vals)
      ensures v < 0 ==> forall j :: 2 <= j < |c| ==> Val(c[j], vals) < 0
    {
      k, v := middle, -1;
      while k != |c|
        invariant middle <= k <= |c| && v < 0
        invariant forall j :: middle <= j < k ==> Val(c[j], vals) < 0
      {
        v := Val(c[k], vals);
        if v >= 0 {
          return;
        }
        k := k + 1;
      }
      k := 2;
      while k != middle
        invariant 2 <= k <= middle && v < 0
        invariant forall j :: 2 <= j < k ==> Val(c[j], vals) < 0
      {
        v := Val(c[k], vals);
        if v >= 0 {
          return;
        }
        k := k + 1;
      }
    }

    /** One watch of the false literal `lit` with the watches before and after
        it: whether it stays in the list, and whether its clause subsumes the
        extended clause. */
    method VisitWatch(lit: Lit, w: Watch, ignore: nat, ghost a: seq<Watch>, ghost b: seq<Watch>, ghost f: Formula)
      returns (keep: seq<Watch>, subsumed: bool)
      requires Connected(literals, garbage, occs, frozen, vars) && Positions(literals, pos)
      requires Watched(literals, garbage, watches[lit := a + [w] + b]) && lit in watches
      requires f == Rest(literals, garbage, ignore, root)
      requires Assigned(vals, root, added, vars) && Val(lit, vals) < 0 && Forced(f, covered, vals)
      modifies this`literals, this`pos, this`watches, this`vals, this`added, this`nextCovered
      ensures Reordered(literals, old(literals)) && Positions(literals, pos)
      ensures Unmoved(literals, old(literals), ignore)
      ensures watches.Keys == old(watches).Keys && watches[lit] == old(watches)[lit]
      ensures |keep| <= 1 && Watched(literals, garbage, watches[lit := a + keep + b])
      ensures Assigned(vals, root, added, vars) && Forced(f, covered, vals) && Val(lit, vals) < 0
      ensures Progress(vars, old(vals), old(added), old(nextCovered), vals, added, nextCovered)
      ensures subsumed ==> AlwaysCovered(f, covered)
      ensures OthersSame(literals, old(literals), w.clause) && KeepsValues(old(vals), vals)
      ensures w.clause in literals && Rewatched(old(literals)[w.clause], literals[w.clause], old(vals))
      ensures !subsumed && w.clause !in garbage && w.clause != ignore ==> Handled(literals[w.clause], vals, lit)
    {
      hide Watched, WatchOf, ListOf, Connected, Positions, Reordered, Forced, Assigned, AlwaysCovered, Rest, OthersSame,
           KeepsValues, Rewatched, Handled;
      keep, subsumed := [w], false;
      ReorderedSame(literals);
      AtWatch(literals, garbage, watches, lit, a, w, b);
      NothingMoved(literals, vals, w.clause);
      if w.clause == ignore {
        return;
      }
      var v := Val(w.blit, vals);
      if v > 0 {
        TrueHandles(literals[w.clause], vals, lit, w.blit);
        return;
      }
      if w.clause in garbage {
        DropGarbage(literals, garbage, watches, lit, a, w, b);
        assert a + [] + b == a + b;
        keep := [];
        return;
      }
      WatchFacts(literals, garbage, watches, occs, frozen, vars, lit, a, w, b);
      InRest(literals, garbage, ignore, root, w.clause);
      if w.size == 2 {
        subsumed := UseClause(w.blit, Lits(literals[w.clause]), f);
        KeepsFalse(old(vals), vals, lit);
        if !subsumed {
          TrueHandles(literals[w.clause], vals, lit, w.blit);
        }
      } else {
        keep, subsumed := VisitLong(lit, w, ignore, a, b, f);
      }
    }

    /** A watch in a clause of more than two literals: find another literal to
        watch, or use the clause. */
    method VisitLong(lit: Lit, w: Watch, ignore: nat, ghost a: seq<Watch>, ghost b: seq<Watch>, ghost f: Formula)
      returns (keep: seq<Watch>, subsumed: bool)
      requires Connected(literals, garbage, occs, frozen, vars) && Positions(literals, pos)
      requires Watched(literals, garbage, watches[lit := a + [w] + b]) && lit in watches
      requires f == Rest(literals, garbage, ignore, root) && w.clause != ignore && w.clause !in garbage
      requires w.clause in literals && |literals[w.clause]| > 2
      requires lit == literals[w.clause][0] || lit == literals[w.clause][1]
      requires Assigned(vals, root, added, vars) && Val(lit, vals) < 0 && Forced(f, covered, vals)
      modifies this`literals, this`pos, this`watches, this`vals, this`added, this`nextCovered
      ensures Reordered(literals, old(literals)) && Positions(literals, pos)
      ensures Unmoved(literals, old(literals), ignore)
      ensures watches.Keys == old(watches).Keys && watches[lit] == old(watches)[lit]
      ensures |keep| <= 1 && Watched(literals, garbage, watches[lit := a + keep + b])
      ensures Assigned(vals, root, added, vars) && Forced(f, covered, vals) && Val(lit, vals) < 0
      ensures Progress(vars, old(vals), old(added), old(nextCovered), vals, added, nextCovered)
      ensures subsumed ==> AlwaysCovered(f, covered)
      ensures OthersSame(literals, old(literals), w.clause) && KeepsValues(old(vals), vals)
      ensures w.clause in literals && Rewatched(old(literals)[w.clause], literals[w.clause], old(vals))
      ensures !subsumed ==> Handled(literals[w.clause], vals, lit)
    {
      hide Watched, Connected, Reordered, Forced, Assigned, AlwaysCovered, Rest, Progress, Positions, Val, Lits,
           OthersSame, KeepsValues, Rewatched, Handled, Swapped;
      var r := w.clause;
      InRest(literals, garbage, ignore, root, r);
      ghost var c0, literals0, d := literals[r], literals, Lits(literals[r]);
      NoRepetition(literals, garbage, occs, frozen, vars, r);
      var other := BringSecond(lit, w, a, b);
      ghost var literals1 := literals;
      keep, subsumed := VisitSecond(lit, other, w, a, b, d, f);
      ReorderedTrans(literals, literals1, literals0);
      OthersTrans(literals0, literals1, literals, r);
      SwappedRewatched(c0, literals1[r], literals[r], old(vals));
      OtherUnmoved(literals, literals0, r, ignore);
    }

    /** The same once `lit` is the second literal of the clause. */
    method VisitSecond(lit: Lit, other: Lit, w: Watch, ghost a: seq<Watch>, ghost b: seq<Watch>, ghost d: set<Lit>,
          ghost f: Formula)
      returns (keep: seq<Watch>, subsumed: bool)
      requires Positions(literals, pos) && Watched(literals, garbage, watches[lit := a + [w] + b]) && lit in watches
      requires w.clause !in garbage && w.clause in literals && |literals[w.clause]| > 2
      requires literals[w.clause][0] == other && literals[w.clause][1] == lit && Var(other) in vars
      requires NoDuplicates(literals[w.clause]) && d == Lits(literals[w.clause]) && d in f
      requires w.clause in pos && 2 <= pos[w.clause] <= |literals[w.clause]|
      requires Assigned(vals, root, added, vars) && Val(lit, vals) < 0 && Forced(f, covered, vals)
      modifies this`literals, this`pos, this`watches, this`vals, this`added, this`nextCovered
      ensures Reordered(literals, old(literals)) && Positions(literals, pos)
      ensures watches.Keys == old(watches).Keys && watches[lit] == old(watches)[lit]
      ensures |keep| <= 1 && Watched(literals, garbage, watches[lit := a + keep + b])
      ensures Assigned(vals, root, added, vars) && Forced(f, covered, vals) && Val(lit, vals) < 0
      ensures Progress(vars, old(vals), old(added), old(nextCovered), vals, added, nextCovered)
      ensures subsumed ==> AlwaysCovered(f, covered)
      ensures OthersSame(literals, old(literals), w.clause) && KeepsValues(old(vals), vals)
      ensures w.clause in literals && Rewatched(old(literals)[w.clause], literals[w.clause], old(vals))
      ensures !subsumed ==> Handled(literals[w.clause], vals, lit)
    {
      hide Watched, Reordered, Forced, Assigned, AlwaysCovered, Progress, Positions, Val, Lits, OthersSame, KeepsValues,
           Rewatched, Handled, NoDuplicates;
      var r := w.clause;
      keep, subsumed := [w], false;
      ReorderedSame(literals);
      NothingMoved(literals, vals, r);
      NoProgress(vars, vals, added, nextCovered);
      var u := Val(other, vals);
      if u > 0 {
        ChangeBlit(literals, garbage, watches, lit, a, w, b, other);
        keep := [w.(blit := other)];
        TrueHandles(literals[r], vals, lit, other);
        return;
      }
      var k, v := FindReplacement(literals[r], pos[r]);
      PositionsKept(literals, literals, pos, r, k);
      pos := pos[r := k];
      if v >= 0 {
        keep := Rewatch(lit, w, k, v, a, b);
        PositionsKept(literals, old(literals), pos, r, k);
      } else {
        AllFalseBut(literals[r], lit, vals, d);
        subsumed := UseClause(other, d, f);
        KeepsFalse(old(vals), vals, lit);
        if !subsumed {
          TrueHandles(literals[r], vals, lit, other);
        }
      }
    }

    /** The other watched literal, after the two have been put in order. */
    method BringSecond(lit: Lit, w: Watch, ghost a: seq<Watch>, ghost b: seq<Watch>) returns (other: Lit)
      requires Connected(literals, garbage, occs, frozen, vars) && Positions(literals, pos)
      requires Watched(literals, garbage, watches[lit := a + [w] + b])
      requires w.clause in literals && |literals[w.clause]| > 2
      requires lit == literals[w.clause][0] || lit == literals[w.clause][1]
      modifies this`literals
      ensures Reordered(literals, old(literals)) && Positions(literals, pos)
      ensures w.clause in pos && 2 <= pos[w.clause] <= |literals[w.clause]|
      ensures Watched(literals, garbage, watches[lit := a + [w] + b])
      ensures literals.Keys == old(literals).Keys && |literals[w.clause]| == |old(literals)[w.clause]|
      ensures literals[w.clause][0] == other && literals[w.clause][1] == lit && Var(other) in vars
      ensures Lits(literals[w.clause]) == Lits(old(literals)[w.clause])
      ensures literals == old(literals)[w.clause := literals[w.clause]]
      ensures OthersSame(literals, old(literals), w.clause)
      ensures Swapped(old(literals)[w.clause], literals[w.clause]) && NoDuplicates(literals[w.clause])
    {
      hide Watched, Connected, Reordered, SecondWatch, Positions, Lits, Swapped, OthersSame, NoDuplicates;
      NoRepetition(literals, garbage, occs, frozen, vars, w.clause);
      SecondSwapped(literals[w.clause], lit);
      var r := w.clause;
      SwapLong(literals, garbage, watches, occs, frozen, vars, lit, a, w, b);
      PositionOf(literals, pos, r);
      literals := literals[r := SecondWatch(literals[r], lit)];
      PositionsKept(literals, old(literals), pos, r, pos[r]);
      MovedOne(old(literals), literals, r);
      other := literals[r][0];
    }

    /** The literal at position `k` is not false: it becomes the blocking literal
        if it is true, and is watched instead of `lit` otherwise. */
    method Rewatch(lit: Lit, w: Watch, k: nat, v: int, ghost a: seq<Watch>, ghost b: seq<Watch>)
      returns (keep: seq<Watch>)
      requires Watched(literals, garbage, watches[lit := a + [w] + b]) && lit in watches
      requires w.clause !in garbage && w.clause in literals && 2 <= k < |literals[w.clause]|
      requires literals[w.clause][1] == lit && NoDuplicates(literals[w.clause])
      requires v == Val(literals[w.clause][k], vals) >= 0
      modifies this`literals, this`watches
      ensures Reordered(literals, old(literals)) && literals.Keys == old(literals).Keys
      ensures w.clause in literals && literals == old(literals)[w.clause := literals[w.clause]]
      ensures |literals[w.clause]| == |old(literals)[w.clause]|
      ensures watches.Keys == old(watches).Keys && watches[lit] == old(watches)[lit]
      ensures |keep| <= 1 && Watched(literals, garbage, watches[lit := a + keep + b])
      ensures OthersSame(literals, old(literals), w.clause)
      ensures Rewatched(old(literals)[w.clause], literals[w.clause], vals) && Handled(literals[w.clause], vals, lit)
    {
      hide Watched, WatchOf, ListOf, Reordered, Exchange, Moved, OthersSame, Rewatched, Handled, NoDuplicates;
      var r, c := w.clause, literals[w.clause];
      ReorderedSame(literals);
      NothingMoved(literals, vals, r);
      if v > 0 {
        ChangeBlit(literals, garbage, watches, lit, a, w, b, c[k]);
        keep := [w.(blit := c[k])];
        TrueHandles(c, vals, lit, c[k]);
      } else {
        MoveWatch(literals, garbage, watches, lit, a, w, b, k);
        assert a + [] + b == a + b;
        ExchangeKeeps(literals, literals, r, k);
        ExchangeRewatched(c, k, vals);
        MovedMap(c, watches, lit, a, w, b, k);
        literals := literals[r := Exchange(c, 1, k)];
        MovedOne(old(literals), literals, r);
        watches := watches[c[k] := watches[c[k]] + [Watch(r, lit, |c|)]];
        keep := [];
      }
    }

    /** All literals of a clause but `other` are false. */
    method UseClause(other: Lit, ghost d: set<Lit>, ghost f: Formula) returns (subsumed: bool)
      requires Assigned(vals, root, added, vars) && Forced(f, covered, vals) && d in f
      requires Val(other, vals) <= 0 && Var(other) in vars
      requires forall l :: l in d && l != other ==> Val(l, vals) < 0
      modifies this`vals, this`added, this`nextCovered
      ensures Assigned(vals, root, added, vars) && Forced(f, covered, vals)
      ensures Progress(vars, old(vals), old(added), old(nextCovered), vals, added, nextCovered)
      ensures KeepsValues(old(vals), vals) && (!subsumed ==> Val(other, vals) > 0)
      ensures subsumed ==> AlwaysCovered(f, covered)
    {
      hide Forced, Assigned, AlwaysCovered;
      subsumed := Val(other, vals) != 0;
      if subsumed {
        Subsuming(f, covered, vals, d);
      } else {
        AsymmetricLiteral(f, covered, vals, d, other);
        AddAsymmetric(Neg(other));
      }
    }

    /** `cover_propagate_asymmetric`: go through the watches of the false literal
        `lit`, except those of the candidate, adding asymmetric literals. */
    method PropagateAsymmetric(lit: Lit, ignore: nat, ghost f: Formula, ghost done: set<Lit>) returns (subsumed: bool)
      requires Database() && lit in watches && f == Rest(literals, garbage, ignore, root)
      requires Assigned(vals, root, added, vars) && Val(lit, vals) < 0 && Forced(f, covered, vals)
      requires AllPassed(literals, garbage, ignore, vals, done) && KeepsValues(root, vals)
      requires forall l :: l in done ==> Val(l, vals) < 0
      modifies this`literals, this`pos, this`watches, this`vals, this`added, this`nextCovered, this`propagations
      ensures Database() && Reordered(literals, old(literals)) && f == Rest(literals, garbage, ignore, root)
      ensures Unmoved(literals, old(literals), ignore) && propagations == old(propagations) + 1
      ensures Assigned(vals, root, added, vars) && Forced(f, covered, vals)
      ensures Progress(vars, old(vals), old(added), old(nextCovered), vals, added, nextCovered)
      ensures subsumed ==> AlwaysCovered(f, covered)
      ensures !subsumed ==> AllPassed(literals, garbage, ignore, vals, done + {lit})
      ensures RootWatched(old(literals), garbage, root) ==> RootWatched(literals, garbage, root)
    {
      hide Watched, Connected, Reordered, Forced, Assigned, AlwaysCovered, Rest, Progress, Positions, Val, Lits,
           RootWatched, AllPassed, Partly, KeepsValues, OthersSame, Rewatched, Handled;
      propagations := propagations + 1;
      subsumed := false;
      var ws := watches[lit];
      var kept: seq<Watch> := [];
      var i := 0;
      ReorderedSame(literals);
      NoProgress(vars, vals, added, nextCovered);
      PartlyStarts(literals, garbage, ignore, vals, done, lit, watches);
      assert ws[0..] == ws;
      assert [] + ws[0..] == ws && watches[lit := ws] == watches;
      while !subsumed && i < |ws|
        invariant propagations == old(propagations) + 1
        invariant 0 <= i <= |ws| && watches.Keys == old(watches).Keys && watches[lit] == ws
        invariant Reordered(literals, old(literals)) && Positions(literals, pos)
        invariant Unmoved(literals, old(literals), ignore)
        invariant Connected(literals, garbage, occs, frozen, vars) && f == Rest(literals, garbage, ignore, root)
        invariant Watched(literals, garbage, watches[lit := kept + ws[i..]])
        invariant Assigned(vals, root, added, vars) && Val(lit, vals) < 0 && Forced(f, covered, vals)
        invariant Progress(vars, old(vals), old(added), old(nextCovered), vals, added, nextCovered)
        invariant subsumed ==> AlwaysCovered(f, covered)
        invariant KeepsValues(root, vals) && forall l :: l in done ==> Val(l, vals) < 0
        invariant !subsumed ==> Partly(literals, garbage, ignore, vals, done, lit, ws[i..])
        invariant RootWatched(old(literals), garbage, root) ==> RootWatched(literals, garbage, root)
      {
        assert kept + ws[i..] == kept + [ws[i]] + ws[i+1..];
        assert ws[i..] == [ws[i]] + ws[i+1..];
        ghost var vals1, added1, next1, before := vals, added, nextCovered, literals;
        var keep: seq<Watch>;
        keep, subsumed := VisitWatch(lit, ws[i], ignore, kept, ws[i+1..], f);
        ProgressTrans(vars, old(vals), old(added), old(nextCovered), vals1, added1, next1, vals, added, nextCovered);
        ConnectedReordered(literals, before, garbage, occs, frozen, vars, ignore, root);
        ReorderedTrans(literals, before, old(literals));
        if RootWatched(before, garbage, root) {
          RootWatchedStep(before, literals, garbage, root, ws[i].clause, vals1);
        }
        if !subsumed {
          PartlyStep(before, literals, garbage, ignore, vals1, vals, done, lit, ws[i], ws[i+1..]);
        }
        KeepsMore(root, vals1, vals, done);
        kept := kept + keep;
        i := i + 1;
      }
      if !subsumed {
        assert ws[i..] == [];
        PartlyEnds(literals, garbage, ignore, vals, done, lit);
      }
      watches := watches[lit := kept + ws[i..]];
    }

    // --------------------------------------------- covered literal addition

    method IsBlocked(c: Clause, lit: Lit) returns (blocked: bool)
      ensures blocked <==> DoublySatisfied(Lits(c), lit, vals)
    {
      for i := 0 to |c|
        invariant forall k :: 0 <= k < i ==> c[k] == Neg(lit) || Val(c[k], vals) <= 0
      {
        if c[i] == Neg(lit) {
          continue;
        }
        if Val(c[i], vals) < 0 {
          continue;
        }
        if Val(c[i], vals) > 0 {
          assert c[i] in Lits(c);
          return true;
        }
      }
      return false;
    }

    /** Copy and mark the unassigned literals of the first candidate. */
    method CopyFirst(c: Clause, lit: Lit)
      requires NoDuplicates(c) && intersection == [] && marks == {}
      requires !DoublySatisfied(Lits(c), lit, vals)
      modifies this`intersection, this`marks
      ensures NoDuplicates(intersection) && marks == Lits(intersection)
      ensures forall x :: x in intersection <==> x in c && x != Neg(lit) && Val(x, vals) == 0
    {
      for i := 0 to |c|
        invariant NoDuplicates(intersection) && forall x :: x in marks <==> x in intersection
        invariant forall x :: x in intersection <==> x in c[..i] && x != Neg(lit) && Val(x, vals) == 0
      {
        assert c[i] !in c[..i] && c[i] in Lits(c);
        if c[i] == Neg(lit) {
          continue;
        }
        if Val(c[i], vals) < 0 {
          continue;
        }
        intersection := intersection + [c[i]];
        marks := marks + {c[i]};
      }
      assert c[..|c|] == c;
    }

    /** Keep the literals of the intersection that are in `c`: unmark those, drop
        what is still marked, and mark what is kept again. */
    method Intersect(c: Clause, lit: Lit)
      requires NoDuplicates(intersection) && marks == Lits(intersection)
      requires forall x :: x in intersection ==> Val(x, vals) == 0 && x != Neg(lit)
      modifies this`intersection, this`marks
      ensures NoDuplicates(intersection) && marks == Lits(intersection)
      ensures forall x :: x in intersection <==> x in old(intersection) && x in c
    {
      for i := 0 to |c|
        invariant intersection == old(intersection)
        invariant forall x :: x in marks <==> x in intersection && x !in c[..i]
      {
        if c[i] == Neg(lit) {
          continue;
        }
        if Val(c[i], vals) < 0 {
          continue;
        }
        if c[i] in marks {
          marks := marks - {c[i]};
        }
      }
      assert c[..|c|] == c;
      var kept: seq<Lit> := [];
      for k := 0 to |intersection|
        invariant intersection == old(intersection) && NoDuplicates(kept)
        invariant forall x :: x in kept <==> x in intersection[..k] && x in c
        invariant forall x :: x in marks <==> x in kept || (x in intersection[k..] && x !in c)
      {
        var other := intersection[k];
        assert other !in intersection[..k] && other !in intersection[k+1..];
        assert forall x :: x in intersection[k..] <==> x == other || x in intersection[k+1..];
        if other in marks {
          marks := marks - {other};
        } else {
          kept := kept + [other];
          marks := marks + {other};
        }
      }
      assert intersection[..|intersection|] == intersection;
      intersection := kept;
    }

    /** Move the element at position `at` to the front by shifting those before it. */
    static method ShiftToFront(list: seq<nat>, at: nat) returns (os: seq<nat>)
      requires at < |list|
      ensures os == MoveToFront(list, at)
    {
      os := list;
      var i := at;
      while i != 0
        invariant 0 <= i <= at && os == list[..i+1] + list[i..at] + list[at+1..]
      {
        os := os[i := os[i-1]];
        i := i - 1;
      }
      os := os[0 := list[at]];
    }

    /** Intersect the unassigned literals of the resolution candidates on `lit`
        that are not doubly satisfied; `first` says that there is none.  A clause
        that empties the intersection moves to the front. */
    method IntersectCandidates(lit: Lit) returns (first: bool)
      requires Connected(literals, garbage, occs, frozen, vars) && Neg(lit) in occs
      requires Val(lit, vals) < 0 && intersection == [] && marks == {}
      modifies this`intersection, this`marks, this`occs
      ensures Permuted(occs, old(occs), Neg(lit)) && Connected(literals, garbage, occs, frozen, vars)
      ensures Neg(lit) in occs && NoDuplicates(intersection) && marks == Lits(intersection)
      ensures first <==> AllBlocked(literals, garbage, lit, vals, occs[Neg(lit)])
      ensures first ==> intersection == []
      ensures !first ==> Intersected(intersection, literals, garbage, lit, vals, occs[Neg(lit)])
    {
      hide DoublySatisfied, Val, Connected, Permuted, NoDuplicates, AllBlocked, Common, Intersected, Intersected;
      CandidateClauses(literals, garbage, occs, frozen, vars, Neg(lit));
      NoCandidates(literals, garbage, lit, vals);
      NoLits();
      first := true;
      var os := occs[Neg(lit)];
      assert os[..0] == [];
      var aborted := false;
      var i := 0;
      while i < |os|
        invariant 0 <= i <= |os| && occs == old(occs) && os == occs[Neg(lit)] && !aborted
        invariant NoDuplicates(intersection) && marks == Lits(intersection)
        invariant first <==> AllBlocked(literals, garbage, lit, vals, os[..i])
        invariant first ==> intersection == []
        invariant !first ==> Intersected(intersection, literals, garbage, lit, vals, os[..i])
      {
        var c := os[i];
        if c in garbage {
          SkipCandidate(literals, garbage, lit, vals, os, i, intersection);
          i := i + 1;
          continue;
        }
        var blocked := IsBlocked(literals[c], lit);
        if blocked {
          SkipCandidate(literals, garbage, lit, vals, os, i, intersection);
          i := i + 1;
          continue;
        }
        assert Unblocked(literals, garbage, c, lit, vals);
        if first {
          CopyFirst(literals[c], lit);
          CommonFirst(literals, garbage, lit, vals, os, i, intersection);
          first := false;
        } else {
          ghost var before := intersection;
          IntersectedValues(before, literals, garbage, lit, vals, os[..i]);
          Intersect(literals[c], lit);
          CommonNext(literals, garbage, lit, vals, os, i, before, intersection);
          if intersection == [] {
            aborted := true;
            break;
          }
        }
        i := i + 1;
      }
      if aborted {
        NoneCommon(literals, garbage, lit, vals, os, i);
        os := ShiftToFront(os, i);
        MoveToFrontPermutes(occs[Neg(lit)], i);
        SameCommon(literals, garbage, lit, vals, occs[Neg(lit)], os);
        occs := occs[Neg(lit) := os];
      } else {
        assert os[..|os|] == os;
      }
      PermutedBy(old(occs), Neg(lit), os);
      assert occs == old(occs)[Neg(lit) := os];
      RelistedConnected(literals, garbage, old(occs), occs, frozen, vars, Neg(lit));
    }

    /** `cover_push_extension`: the blocking literal, then the other covered ones. */
    method PushStep(lit: Lit)
      requires extend == FlatSteps(steps) && NoneEmpty(steps)
      modifies this`extend, this`steps
      ensures steps == old(steps) + [[lit] + Without(covered, lit)]
      ensures extend == FlatSteps(steps) && NoneEmpty(steps)
    {
      hide FlatSteps;
      extend := extend + [0];
      extend := extend + [lit];
      assert covered[..0] == [] && Without([], lit) == [];
      for k := 0 to |covered|
        invariant extend == FlatSteps(steps) + [0] + Flat([lit] + Without(covered[..k], lit))
        invariant steps == old(steps)
      {
        assert covered[..k+1][..k] == covered[..k];
        if covered[k] != lit {
          extend := extend + [covered[k]];
        }
      }
      assert covered[..|covered|] == covered;
      FlatStepsAppend(steps, [lit] + Without(covered, lit));
      steps := steps + [[lit] + Without(covered, lit)];
    }

    method AddCoveredLiteral(x: Lit, ghost f: Formula)
      requires Assigned(vals, root, added, vars) && Forced(f, covered, vals)
      requires Val(x, vals) == 0 && Var(x) in vars
      modifies this`vals, this`covered, this`added
      ensures Assigned(vals, root, added, vars) && Forced(f, covered, vals) && vals == SetFalse(x, old(vals))
      ensures covered == old(covered) + [x] && added == old(added) + [x]
      ensures Free(vars, vals) < Free(vars, old(vals))
    {
      AddLiteral(vals, root, added, vars, x);
      CoveredForced(f, covered, vals, x);
      vals := SetFalse(x, vals);
      covered := covered + [x];
      added := added + [x];
    }

    /** The literals of the intersection become covered. */
    method AddCovered(ghost f: Formula)
      requires Assigned(vals, root, added, vars) && Forced(f, covered, vals)
      requires NoDuplicates(intersection) && intersection != []
      requires Consistent(intersection) && forall x :: x in intersection ==> Val(x, vals) == 0 && Var(x) in vars
      modifies this`vals, this`covered, this`added, this`nextCovered
      ensures Assigned(vals, root, added, vars) && Forced(f, covered, vals)
      ensures covered == old(covered) + intersection && added == old(added) + intersection && nextCovered == 0
      ensures Free(vars, vals) < Free(vars, old(vals))
    {
      hide Assigned, Forced, SetFalse, Val, NoDuplicates, Consistent, Free, Var;
      assert intersection[..0] == [];
      for k := 0 to |intersection|
        invariant Assigned(vals, root, added, vars) && Forced(f, covered, vals)
        invariant covered == old(covered) + intersection[..k] && added == old(added) + intersection[..k]
        invariant forall j :: k <= j < |intersection| ==> Val(intersection[j], vals) == 0
        invariant Free(vars, vals) + (if k > 0 then 1 else 0) <= Free(vars, old(vals))
      {
        OthersUnassigned(intersection, k, vals);
        assert intersection[..k+1] == intersection[..k] + [intersection[k]];
        AddCoveredLiteral(intersection[k], f);
      }
      nextCovered := 0;
      assert intersection[..|intersection|] == intersection;
    }

    method UnmarkIntersection()
      requires marks == Lits(intersection)
      modifies this`marks, this`intersection
      ensures marks == {} && intersection == []
    {
      for k := 0 to |intersection|
        invariant intersection == old(intersection) && forall x :: x in marks ==> x in intersection[k..]
      {
        marks := marks - {intersection[k]};
      }
      intersection := [];
    }

    /** `cover_propagate_covered`: the extended clause is blocked on `lit`, or the
        literals common to all resolution candidates become covered. */
    method PropagateCovered(lit: Lit, candidate: nat, ghost f: Formula, ghost c: Clause) returns (res: bool)
      requires Database() && lit in covered && f == Rest(literals, garbage, candidate, root)
      requires Extended(f, c, root, vars, vals, added, covered, extend, steps, clauseId)
      requires intersection == [] && marks == {} && candidate in literals && literals[candidate] == c
      modifies this`occs, this`intersection, this`marks, this`vals, this`added, this`covered, this`nextCovered,
               this`extend, this`steps, this`propagations
      ensures Database() && intersection == [] && marks == {}
      ensures propagations == old(propagations) + if Var(lit) in frozen then 0 else 1
      ensures !res && vals == old(vals) ==> Stuck(frozen, f, lit, vals)
      ensures !res ==> Extended(f, c, root, vars, vals, added, covered, extend, steps, clauseId)
      ensures !res ==>
        (vals == old(vals) && added == old(added) && covered == old(covered) && nextCovered == old(nextCovered)) ||
                       (Free(vars, vals) < Free(vars, old(vals)) && old(added) <= added && nextCovered == 0)
      ensures res ==>
        vals == old(vals) && added == old(added) && covered == old(covered) && nextCovered == old(nextCovered)
      ensures res ==> Assigned(vals, root, added, vars) && CoveringC(covered, added, c, root)
      ensures res ==> Covers(f, c, root, extend, steps, clauseId)
    {
      hide Connected, Watched, HasLists, Rest, Extended, Covers, Val, Assigned, CoveringC, Positions, Free, Forced,
           Stuck;
      if Var(lit) in frozen {
        FrozenStuck(frozen, f, lit, vals);
        return false;
      }
      propagations := propagations + 1;
      RunFacts(f, c, root, vars, vals, added, covered, extend, steps, clauseId, lit);
      HasOccurrences(literals, garbage, occs, frozen, vars, Neg(lit));
      res := CoverOn(lit, candidate, f, c);
    }

    /** The same for a literal that is not frozen. */
    method CoverOn(lit: Lit, candidate: nat, ghost f: Formula, ghost c: Clause) returns (res: bool)
      requires Connected(literals, garbage, occs, frozen, vars) && Neg(lit) in occs && Val(lit, vals) < 0
      requires Var(lit) !in frozen && Var(lit) !in root && lit in covered
      requires f == Rest(literals, garbage, candidate, root)
      requires Extended(f, c, root, vars, vals, added, covered, extend, steps, clauseId)
      requires intersection == [] && marks == {} && candidate in literals && literals[candidate] == c
      modifies this`occs, this`intersection, this`marks, this`vals, this`added, this`covered, this`nextCovered,
               this`extend, this`steps
      ensures Connected(literals, garbage, occs, frozen, vars) && intersection == [] && marks == {}
      ensures !res && vals == old(vals) ==> Stuck(frozen, f, lit, vals)
      ensures !res ==> Extended(f, c, root, vars, vals, added, covered, extend, steps, clauseId)
      ensures res || (Free(vars, vals) < Free(vars, old(vals)) && old(added) <= added && nextCovered == 0) ||
        (vals == old(vals) && added == old(added) && covered == old(covered) && nextCovered == old(nextCovered))
      ensures res ==>
        && vals == old(vals) && added == old(added) && covered == old(covered) && nextCovered == old(nextCovered)
        && Covers(f, c, root, extend, steps, clauseId)
    {
      hide Connected, Rest, Extended, Covers, AllBlocked, Common, Intersected, Val, Lits, Without, Assigned, CoveringC,
           Permuted, NoDuplicates, FlatSteps, Free, Consistent, Forced, Steps, Missing, Stuck;
      var first := IntersectCandidates(lit);
      res := false;
      NoLits();
      if first {
        BlockedOn(lit, candidate, f, c);
        res := true;
      } else if intersection != [] {
        CoverWith(lit, candidate, f, c);
        UnmarkIntersection();
      } else {
        GivesUp(lit, candidate, f, c);
      }
      UnmarkIntersection();
    }

    /** The extended clause is not blocked on `lit`, and nothing can be covered. */
    lemma GivesUp(lit: Lit, candidate: nat, f: Formula, c: Clause)
      requires Connected(literals, garbage, occs, frozen, vars) && lit in covered
      requires f == Rest(literals, garbage, candidate, root) && candidate in literals && literals[candidate] == c
      requires Extended(f, c, root, vars, vals, added, covered, extend, steps, clauseId)
      requires Neg(lit) in occs && !AllBlocked(literals, garbage, lit, vals, occs[Neg(lit)])
      requires Intersected([], literals, garbage, lit, vals, occs[Neg(lit)])
      ensures Stuck(frozen, f, lit, vals)
    {
      hide Connected, Extended, Stuck, AllBlocked, Intersected, Val, Rest;
      RunFacts(f, c, root, vars, vals, added, covered, extend, steps, clauseId, lit);
      CandidateFalse(f, c, root, vars, vals, added, covered, extend, steps, clauseId);
      NothingToCover(literals, garbage, occs, frozen, vars, root, vals, candidate, lit);
    }

    /** The extended clause is blocked on `lit`. */
    method BlockedOn(lit: Lit, candidate: nat, ghost f: Formula, ghost c: Clause)
      requires Connected(literals, garbage, occs, frozen, vars) && lit in covered
      requires f == Rest(literals, garbage, candidate, root)
      requires Extended(f, c, root, vars, vals, added, covered, extend, steps, clauseId)
      requires Var(lit) !in frozen && Var(lit) !in root && Neg(lit) in occs
      requires AllBlocked(literals, garbage, lit, vals, occs[Neg(lit)])
      modifies this`extend, this`steps
      ensures Covers(f, c, root, extend, steps, clauseId)
    {
      hide Connected, Rest, Extended, Covers, AllBlocked, Val, Without, Intersects;
      RunFacts(f, c, root, vars, vals, added, covered, extend, steps, clauseId, lit);
      CandidatesIntersect(literals, garbage, occs, frozen, vars, root, vals, candidate, lit, []);
      PushStep(lit);
      RunBlocked(f, c, root, vars, vals, added, covered, old(extend), old(steps), clauseId, lit, extend);
    }

    /** `covered_literal_addition`. */
    method CoverWith(lit: Lit, candidate: nat, ghost f: Formula, ghost c: Clause)
      requires Connected(literals, garbage, occs, frozen, vars) && lit in covered
      requires f == Rest(literals, garbage, candidate, root)
      requires Extended(f, c, root, vars, vals, added, covered, extend, steps, clauseId)
      requires Var(lit) !in frozen && Var(lit) !in root && Neg(lit) in occs
      requires !AllBlocked(literals, garbage, lit, vals, occs[Neg(lit)])
      requires intersection != [] && NoDuplicates(intersection)
      requires intersection != [] ==> Intersected(intersection, literals, garbage, lit, vals, occs[Neg(lit)])
      modifies this`extend, this`steps, this`vals, this`added, this`covered, this`nextCovered
      ensures Extended(f, c, root, vars, vals, added, covered, extend, steps, clauseId)
      ensures Free(vars, vals) < Free(vars, old(vals)) && old(added) <= added && nextCovered == 0
    {
      hide Connected, Rest, Extended, AllBlocked, Common, Intersected, Val, Without, Intersects, Assigned, Forced,
           Consistent;
      RunFacts(f, c, root, vars, vals, added, covered, extend, steps, clauseId, lit);
      CandidatesIntersect(literals, garbage, occs, frozen, vars, root, vals, candidate, lit, intersection);
      IntersectionFacts(literals, garbage, occs, frozen, vars, vals, lit, intersection);
      PushStep(lit);
      AddCovered(f);
      RunCovered(f, c, root, vars, old(vals), vals, old(added), added, old(covered), intersection, old(extend),
        old(steps), clauseId, lit, extend);
    }

    /** No candidate is being covered. */
    ghost predicate Idle()
      reads this`vals, this`added, this`extend, this`covered, this`intersection, this`marks, this`steps
    {
      && vals == root
      && added == []
      && extend == []
      && covered == []
      && intersection == []
      && marks == {}
      && steps == []
      && root.Keys <= vars && forall v :: v in vars ==> v > 0
    }

    ghost predicate Valid()
      reads this
    {
      Database() && Idle()
    }

    /** The irredundant clauses and the literals fixed at level zero. */
    ghost function F(): Formula
      reads this`literals, this`garbage
    {
      Live(literals, garbage) + Units(root)
    }

    method IsSatisfied(c: Clause) returns (satisfied: bool)
      ensures satisfied <==> HasTrue(c, vals)
    {
      satisfied := false;
      for i := 0 to |c|
        invariant satisfied <==> exists l :: l in c[..i] && Val(l, vals) > 0
      {
        assert c[..i+1] == c[..i] + [c[i]];
        if Val(c[i], vals) > 0 {
          satisfied := true;
        }
      }
      assert c[..|c|] == c;
    }

    /** The unassigned literals of the candidate are assumed to be false. */
    method Assume(candidate: nat, ghost f: Formula)
      requires Database() && Idle() && candidate in literals && f == Rest(literals, garbage, candidate, root)
      requires forall l :: l in literals[candidate] ==> Val(l, root) <= 0
      modifies this`vals, this`added, this`covered, this`nextCovered
      ensures Extended(f, literals[candidate], root, vars, vals, added, covered, extend, steps, clauseId)
    {
      hide Connected, Watched, Positions, Rest, Forced, Free, Assigned;
      var c := literals[candidate];
      CandidateFacts(literals, garbage, occs, frozen, vars, candidate);
      NothingAdded(f, root, vars, candidate, literals, garbage);
      assert c[..0] == [];
      for i := 0 to |c|
        invariant Assigned(vals, root, added, vars) && Forced(f, covered, vals)
        invariant covered == Unassigned(c[..i], root) && added == covered && extend == [] && steps == []
        invariant forall k :: i <= k < |c| ==> Val(c[k], vals) == Val(c[k], root)
      {
        assert c[..i+1][..i] == c[..i];
        if Val(c[i], vals) != 0 {
          continue;
        }
        assert forall k :: i < k < |c| ==> Var(c[k]) != Var(c[i]);
        CoveredForced(f, covered, vals, c[i]);
        AddAsymmetric(c[i]);
        covered := covered + [c[i]];
      }
      assert c[..|c|] == c;
      StartExtended(f, c, root, vars, vals, added, covered, clauseId);
    }

    /** Propagate the next added literal. */
    method AsymmetricTurn(candidate: nat, ghost f: Formula, ghost c: Clause) returns (tautological: bool)
      requires Database() && f == Rest(literals, garbage, candidate, root) && nextAdded < |added|
      requires Extended(f, c, root, vars, vals, added, covered, extend, steps, clauseId)
      requires AllPassed(literals, garbage, candidate, vals, Lits(added[..nextAdded]))
      modifies this`literals, this`pos, this`watches, this`vals, this`added, this`nextAdded, this`nextCovered,
               this`propagations
      ensures propagations == old(propagations) + 1
      ensures Database() && Reordered(literals, old(literals)) && f == Rest(literals, garbage, candidate, root)
      ensures Unmoved(literals, old(literals), candidate)
      ensures Extended(f, c, root, vars, vals, added, covered, extend, steps, clauseId)
      ensures Assigned(vals, root, added, vars) && CoveringC(covered, added, c, root)
      ensures nextAdded == old(nextAdded) + 1 <= |added| && nextCovered <= old(nextCovered)
      ensures (Free(vars, vals) < Free(vars, old(vals)) && nextCovered == 0) ||
              (vals == old(vals) && added == old(added))
      ensures tautological ==> Covers(f, c, root, extend, steps, clauseId)
      ensures !tautological ==> AllPassed(literals, garbage, candidate, vals, Lits(added[..nextAdded]))
      ensures RootWatched(old(literals), garbage, root) ==> RootWatched(literals, garbage, root)
    {
      hide Connected, Watched, Positions, HasLists, Rest, Extended, Covers, Free, Assigned, CoveringC, Progress,
           Reordered, Val, Forced, AlwaysCovered, AllPassed, RootWatched, KeepsValues, Lits;
      var lit := added[nextAdded];
      ghost var done := Lits(added[..nextAdded]);
      nextAdded := nextAdded + 1;
      AddedFacts(f, c, root, vars, vals, added, covered, extend, steps, clauseId, lit);
      HasList(watches, vars, lit);
      AssignedKeeps(vals, root, added, vars);
      PrefixFalse(added, nextAdded - 1, vals);
      tautological := PropagateAsymmetric(lit, candidate, f, done);
      ProgressFacts(vars, old(vals), old(added), old(nextCovered), vals, added, nextCovered);
      ExtendedAsymmetric(f, c, root, vars, old(vals), vals, old(added), added, covered, extend, steps, clauseId,
        tautological);
      PrefixLits(old(added), added, nextAdded - 1);
    }

    /** The next asymmetric literal if there is one, else the next covered one. */
    method PropagateTurn(candidate: nat, ghost f: Formula, ghost c: Clause) returns (tautological: bool)
      requires Database() && f == Rest(literals, garbage, candidate, root) && intersection == [] && marks == {}
      requires Extended(f, c, root, vars, vals, added, covered, extend, steps, clauseId)
      requires nextAdded <= |added| && nextCovered <= |covered| && (nextAdded < |added| || nextCovered < |covered|)
      requires candidate in literals && literals[candidate] == c
      requires AllPassed(literals, garbage, candidate, vals, Lits(added[..nextAdded]))
      requires AllStuck(frozen, f, covered, nextCovered, vals)
      modifies this`literals, this`pos, this`watches, this`occs, this`intersection, this`marks, this`vals
      modifies this`added, this`covered, this`extend, this`steps, this`nextAdded, this`nextCovered, this`propagations
      ensures old(propagations) <= propagations <= old(propagations) + 1
      ensures Database() && f == Rest(literals, garbage, candidate, root) && intersection == [] && marks == {}
      ensures Reordered(literals, old(literals)) && Unmoved(literals, old(literals), candidate)
      ensures nextAdded <= |added| && nextCovered <= |covered|
      ensures Assigned(vals, root, added, vars) && CoveringC(covered, added, c, root)
      ensures !tautological ==> Extended(f, c, root, vars, vals, added, covered, extend, steps, clauseId)
      ensures tautological ==> Covers(f, c, root, extend, steps, clauseId)
      ensures tautological || Free(vars, vals) < Free(vars, old(vals)) ||
              (vals == old(vals) && added == old(added) && nextAdded > old(nextAdded)) ||
              (vals == old(vals) && added == old(added) && nextAdded == old(nextAdded) &&
               covered == old(covered) && nextCovered > old(nextCovered))
      ensures !tautological ==>
        && AllPassed(literals, garbage, candidate, vals, Lits(added[..nextAdded]))
        && AllStuck(frozen, f, covered, nextCovered, vals)
      ensures RootWatched(old(literals), garbage, root) ==> RootWatched(literals, garbage, root)
    {
      hide Connected, Watched, Positions, HasLists, Rest, Extended, Covers, Free, Assigned, CoveringC, Progress,
           Reordered, Val, Forced, AlwaysCovered, Unmoved, AllPassed, RootWatched, KeepsValues, Lits, Stuck;
      if nextAdded < |added| {
        tautological := AsymmetricTurn(candidate, f, c);
      } else {
        ReorderedSame(literals);
        UnmovedTrans(literals, literals, literals, candidate);
        ExtendedFacts(f, c, root, vars, vals, added, covered, extend, steps, clauseId);
        var lit := covered[nextCovered];
        nextCovered := nextCovered + 1;
        tautological := PropagateCovered(lit, candidate, f, c);
        if !tautological {
          ExtendedFacts(f, c, root, vars, vals, added, covered, extend, steps, clauseId);
          AssignedGrows(old(vals), old(added), vals, added, root, vars);
          assert added[..nextAdded] == old(added)[..nextAdded];
          AllPassedLater(literals, garbage, candidate, old(vals), vals, Lits(added[..nextAdded]));
        }
      }
    }

    /** The main loop of `cover_clause`: asymmetric literals first, then covered
        ones, until the extended clause is blocked, subsumed or complete. */
    method Propagate(candidate: nat, ghost f: Formula, ghost c: Clause) returns (tautological: bool)
      requires Database() && f == Rest(literals, garbage, candidate, root)
      requires Extended(f, c, root, vars, vals, added, covered, extend, steps, clauseId)
      requires intersection == [] && marks == {} && candidate in literals && literals[candidate] == c
      modifies this`literals, this`pos, this`watches, this`occs, this`intersection, this`marks, this`vals
      modifies this`added, this`covered, this`extend, this`steps, this`nextAdded, this`nextCovered, this`propagations
      ensures propagations >= old(propagations)
      ensures Database() && Reordered(literals, old(literals)) && intersection == [] && marks == {}
      ensures Unmoved(literals, old(literals), candidate)
      ensures Assigned(vals, root, added, vars) && CoveringC(covered, added, c, root)
      ensures tautological ==> Covers(f, c, root, extend, steps, clauseId)
      ensures !tautological ==>
        && AllPassed(literals, garbage, candidate, vals, Lits(added)) && AllStuck(frozen, f, covered, |covered|, vals)
      ensures RootWatched(old(literals), garbage, root) ==> RootWatched(literals, garbage, root)
    {
      hide Connected, Watched, Positions, HasLists, Rest, Extended, Covers, Free, Assigned, CoveringC, Progress,
           Reordered, Val, Forced, AlwaysCovered, AllPassed, RootWatched, KeepsValues, Lits, Stuck;
      tautological := false;
      nextAdded, nextCovered := 0, 0;
      ReorderedSame(literals);
      UnmovedTrans(literals, literals, literals, candidate);
      ExtendedFacts(f, c, root, vars, vals, added, covered, extend, steps, clauseId);
      AtLeastTwo(literals, pos);
      NothingPassed(literals, garbage, candidate, vals);
      NoLits();
      assert added[..0] == [];
      while !tautological
        invariant Database() && f == Rest(literals, garbage, candidate, root) && intersection == [] && marks == {}
        invariant propagations >= old(propagations)
        invariant Reordered(literals, old(literals)) && Unmoved(literals, old(literals), candidate)
        invariant nextAdded <= |added| && nextCovered <= |covered|
        invariant Assigned(vals, root, added, vars) && CoveringC(covered, added, c, root)
        invariant !tautological ==> Extended(f, c, root, vars, vals, added, covered, extend, steps, clauseId)
        invariant tautological ==> Covers(f, c, root, extend, steps, clauseId)
        invariant !tautological ==>
          && AllPassed(literals, garbage, candidate, vals, Lits(added[..nextAdded]))
          && AllStuck(frozen, f, covered, nextCovered, vals)
        invariant RootWatched(old(literals), garbage, root) ==> RootWatched(literals, garbage, root)
        decreases !tautological, Free(vars, vals), |added| - nextAdded, |covered| - nextCovered
      {
        if nextAdded == |added| && nextCovered == |covered| {
          assert added[..nextAdded] == added;
          break;
        }
        ghost var literals0 := literals;
        tautological := PropagateTurn(candidate, f, c);
        ReorderedTrans(literals, literals0, old(literals));
        UnmovedTrans(literals, literals0, old(literals), candidate);
      }
    }

    /** Add the literals of the candidate that the covering did not need to the
        clause on top of the extension stack. */
    method PushMissing(c: Clause, ghost before: seq<Entry>, ghost e: Entry)
      requires extension == before + [e] && Unassigned(c, root) <= covered
      requires forall l :: l in covered ==> Val(l, root) == 0
      modifies this`extension
      ensures extension == before + [Entry(e.cube, e.id, e.clause + Missing(c, root))]
    {
      var j := 0;
      assert c[..0] == [] && e.clause + [] == e.clause;
      for i := 0 to |c|
        invariant j == |Unassigned(c[..i], root)|
        invariant extension == before + [Entry(e.cube, e.id, e.clause + Missing(c[..i], root))]
      {
        assert c[..i+1][..i] == c[..i];
        UnassignedNext(c, i, root, covered);
        if j >= |covered| || c[i] != covered[j] {
          AppendToTop(before, extension[|before|], c[i]);
          assert e.clause + Missing(c[..i], root) + [c[i]] == e.clause + Missing(c[..i+1], root);
          extension := extension[|extension| - 1 := PushLiteral(extension[|extension| - 1], c[i])];
        } else {
          assert Missing(c[..i+1], root) == Missing(c[..i], root);
          j := j + 1;
        }
      }
      assert c[..|c|] == c;
    }

    /** Copy the private stack to the extension stack, entry by entry.  Missing
        literals are added when the next entry starts, and to the last one only
        if proofs are written. */
    method CopyExtension(c: Clause) returns (ghost es: seq<Entry>)
      requires extend == FlatSteps(steps) && NoneEmpty(steps) && steps != []
      requires Unassigned(c, root) <= covered && forall l :: l in covered ==> Val(l, root) == 0
      modifies this`extension, this`clauseId
      ensures extension == old(extension) + es && clauseId == old(clauseId) + |steps|
      ensures es == (if proof then Steps(steps, Missing(c, root), old(clauseId)) else Copied(steps, Missing(c, root),
        old(clauseId), |steps|))
    {
      hide FlatSteps, Copied, Unassigned, Missing, Steps, Val;
      var prev := -2147483648;
      var alreadyPushed := false;
      ghost var missing, id, before := Missing(c, root), clauseId, extension;
      ghost var k, i := 0, -1;
      var q := 0;
      CopiedNone(steps, missing, id);
      while q < |extend|
        invariant q <= |extend| && extend == old(extend)
        invariant i < 0 ==> q == 0 && k == 0
        invariant i >= 0 ==> k < |steps| && i <= |steps[k]| && q == |FlatSteps(steps[..k])| + 1 + i
        invariant prev == 0 <==> i == 0
        invariant alreadyPushed <==> k > 0 || i > 0
        invariant Copying(extension, clauseId, before, id, steps, missing, k, i)
      {
        var other := extend[q];
        FlatStepsAt(steps, k);
        assert 0 <= i < |steps[k]| ==> other == steps[k][i];
        if i == |steps[k]| {
          FlatStepsAt(steps, k + 1);
        }
        if other != 0 {
          CopyLiteral(other, prev == 0, alreadyPushed, c, before, id, k, i);
          alreadyPushed := true;
          i := i + 1;
        } else if i < 0 {
          i := 0;
        } else {
          CopiedStep(extension, clauseId, before, id, steps, missing, k);
          k, i := k + 1, 0;
        }
        prev := other;
        q := q + 1;
      }
      FlatStepsAt(steps, k);
      CopiedStep(extension, clauseId, before, id, steps, missing, k);
      CopiedLast(steps, missing, id, k + 1);
      assert steps[..k+1] == steps;
      if proof {
        ghost var rest := before + Steps(steps[..k], missing, id);
        assert extension == rest + [Entry([steps[k][0]], id + k + 1, steps[k])];
        PushMissing(c, rest, Entry([steps[k][0]], id + k + 1, steps[k]));
        es := Steps(steps, missing, id);
      } else {
        es := Copied(steps, missing, id, |steps|);
      }
    }

    /** Copy one literal; the first literal of a step starts a new entry. */
    method CopyLiteral(other: Lit, first: bool, alreadyPushed: bool, c: Clause,
        ghost before: seq<Entry>, ghost id: nat, ghost k: nat, ghost i: nat)
      requires NoneEmpty(steps) && k < |steps| && i < |steps[k]| && other == steps[k][i]
      requires Unassigned(c, root) <= covered && forall l :: l in covered ==> Val(l, root) == 0
      requires first == (i == 0) && alreadyPushed == (k > 0 || i > 0)
      requires Copying(extension, clauseId, before, id, steps, Missing(c, root), k, i)
      modifies this`extension, this`clauseId
      ensures Copying(extension, clauseId, before, id, steps, Missing(c, root), k, i + 1)
    {
      hide Copied, Unassigned, Missing, Steps, Val;
      ghost var missing := Missing(c, root);
      ghost var rest := before + Steps(steps[..k], missing, id);
      CopiedNone(steps, missing, id);
      if first {
        if alreadyPushed {
          CopiedLast(steps, missing, id, k);
          ghost var others := before + Steps(steps[..k-1], missing, id);
          ghost var e := Entry([steps[k-1][0]], id + k, steps[k-1]);
          assert extension == others + [e];
          PushMissing(c, others, e);
          assert extension == rest;
        }
        clauseId := clauseId + 1;
        extension := extension + [Entry([other], clauseId, [])];
      }
      assert steps[k][..i+1] == steps[k][..i] + [other];
      assert extension == rest + [Entry([steps[k][0]], id + k + 1, steps[k][..i])];
      AppendToTop(rest, extension[|rest|], other);
      extension := extension[|extension| - 1 := PushLiteral(extension[|extension| - 1], other)];
    }

    /** `set_val (lit, 0)` for the added literals; the private stacks are emptied. */
    method Reset()
      requires Assigned(vals, root, added, vars)
      modifies this`vals, this`covered, this`extend, this`added, this`steps
      ensures vals == root && covered == [] && extend == [] && added == [] && steps == []
    {
      AssignedKeys(vals, root, added, vars);
      assert added[0..] == added;
      for i := 0 to |added|
        invariant added == old(added) && forall v :: v in root ==> v in vals && vals[v] == root[v]
        invariant vals.Keys <= root.Keys + ClauseVars(added[i..])
      {
        assert added[i..] == [added[i]] + added[i+1..];
        assert added[i] in added;
        assert ClauseVars(added[i..]) <= {Var(added[i])} + ClauseVars(added[i+1..]);
        vals := vals - {Var(added[i])};
      }
      assert added[|added|..] == [] && ClauseVars([]) == {};
      SameAssignment(vals, root);
      covered := [];
      extend := [];
      added := [];
      steps := [];
    }

    /** The candidate is covered: keep the private stack and remove it, unless no
        covered step was made. */
    method Conclude(c: nat, ghost f: Formula, ghost cand: Clause) returns (ghost es: seq<Entry>)
      requires Database() && c in literals && literals[c] == cand && c !in garbage
      requires Units(root) <= f && (forall v :: v in vars ==> v > 0) && root.Keys <= vars
      requires forall l :: l in cand ==> Val(l, root) <= 0
      requires Covers(f, cand, root, extend, steps, clauseId)
      requires Assigned(vals, root, added, vars) && CoveringC(covered, added, cand, root)
      modifies this`extension, this`clauseId, this`garbage
      ensures Database() && extension == old(extension) + es
      ensures garbage == if es == [] then old(garbage) else old(garbage) + {c}
      ensures Reconstructs(f, es, f + {Lits(cand)})
      ensures es == [] ==> Consequence(f, Lits(cand))
    {
      hide Connected, Watched, Positions, HasLists, Covers, Assigned, CoveringC, Val, Live, Units, Reconstructs, Steps,
           Missing, Consequence;
      CoversFacts(f, cand, root, vars, vals, added, covered, extend, steps, clauseId);
      es := [];
      if extend == [] {
        ImpliedWithout(f, Lits(cand));
      } else {
        CopiedReconstructs(f, cand, root, steps, clauseId);
        SomeCopied(steps, Missing(cand, root), clauseId);
        es := CopyExtension(literals[c]);
        GarbageKeeps(literals, garbage, watches, occs, frozen, vars, c);
        garbage := garbage + {c};
      }
    }

    /** A clause with a root-level true literal is redundant as it is. */
    method DropSatisfied(c: nat)
      requires Valid() && c in literals && c !in garbage && HasTrue(literals[c], root)
      modifies this`garbage
      ensures Valid() && garbage == old(garbage) + {c} && Reconstructs(F(), [], old(F()))
    {
      hide Connected, Watched, Positions, HasLists, Extended, Assigned, CoveringC, Val, Live, Units, Reconstructs;
      SatisfiedRemoved(literals, garbage, root, c);
      GarbageKeeps(literals, garbage, watches, occs, frozen, vars, c);
      garbage := garbage + {c};
    }


    /** `cover_clause`: the candidate is removed if it is satisfied, or if the
        extended clause turns out to be covered.  The entries pushed repair the
        models of what is left.  An asymmetric tautology is implied and stays.
        Otherwise nothing more can be added to the extended clause `x`, and it is
        neither blocked nor, with proper watches, subsumed. */
    method CoverClause(c: nat) returns (tautological: bool, ghost es: seq<Entry>, ghost x: Extent)
      requires Valid() && c in literals && c !in garbage
      modifies this
      ensures Valid() && Reordered(literals, old(literals)) && propagations >= old(propagations)
      ensures garbage == old(garbage) || garbage == old(garbage) + {c}
      ensures extension == old(extension) + es && Reconstructs(F(), es, old(F()))
      ensures !tautological ==> es == [] && (c in garbage <==> HasTrue(old(literals)[c], root))
      ensures tautological ==> (c in garbage <==> es != [])
      ensures tautological && es == [] ==> Consequence(Rest(old(literals), garbage, c, root), Lits(old(literals)[c]))
      ensures !tautological && c !in garbage ==>
        Exhausted(frozen, Rest(old(literals), garbage, c, root), old(literals)[c], root, x)
      ensures RootWatched(old(literals), old(garbage), root) ==>
        && RootWatched(literals, garbage, root)
        && (!tautological && c !in garbage ==> Closed(literals, garbage, c, x.vals))
    {
      hide Connected, Watched, Positions, HasLists, Extended, Covers, Assigned, CoveringC, Reordered, Val;
      hide Live, Units, Reconstructs, Steps, Missing, Consequence, Rest, Exhausted, RootWatched, AllPassed, AllStuck,
           Closed, Lits, HasTrue;
      es, x := [], Extent(root, []);
      ReorderedSame(literals);
      NothingReconstructs(F());
      var satisfied := IsSatisfied(literals[c]);
      if satisfied {
        FewerWatched(literals, garbage, c, root);
        DropSatisfied(c);
        return false, [], x;
      }
      ghost var f, cand := Rest(literals, garbage, c, root), literals[c];
      Falsifiable(cand, root);
      Assume(c, f);
      tautological := Propagate(c, f, cand);
      RestIs(old(literals), garbage, c, root);
      LiveReordered(literals, old(literals), garbage);
      LiveReordered(literals, old(literals), garbage + {c});
      x := Extent(vals, covered);
      if tautological {
        FewerWatched(literals, garbage, c, root);
        es := Conclude(c, f, cand);
      } else {
        ExtentExhausted(frozen, f, cand, root, vars, vals, added, covered);
        ExtentClosed(literals, garbage, c, root, vars, vals, added);
      }
      Reset();
    }

    // --------------------------------------------------------------- rounds

    /** No occurrence list has been built; nothing is being covered. */
    ghost predicate Disconnected()
      reads this
    {
      && Connected(literals, literals.Keys, NoOccurrences(vars), frozen, vars) && Positions(literals, pos)
      && Watched(literals, garbage, watches) && HasLists(watches, vars) && Idle()
    }

    /** Add a clause to the occurrence lists of its literals. */
    method ConnectClause(c: nat, ghost pending: set<nat>)
      requires Connected(literals, pending, occs, frozen, vars) && c in literals
      modifies this`occs
      ensures Connected(literals, pending - {c}, occs, frozen, vars)
    {
      hide Connected;
      var lits := literals[c];
      CandidateFacts(literals, pending, occs, frozen, vars, c);
      for i := 0 to |lits|
        invariant Connected(literals, pending, occs, frozen, vars)
        invariant forall k :: 0 <= k < i ==> Listed(occs, lits[k], c)
      {
        HasOccurrences(literals, pending, occs, frozen, vars, lits[i]);
        OneMore(literals, pending, occs, frozen, vars, lits[i], c);
        occs := occs[lits[i] := occs[lits[i]] + [c]];
      }
      NowConnected(literals, pending, occs, frozen, vars, c);
    }

    method AllFrozen(c: Clause) returns (allFrozen: bool)
      ensures allFrozen <==> OnlyFrozen(c, frozen)
    {
      allFrozen := true;
      for i := 0 to |c|
        invariant allFrozen <==> forall k :: 0 <= k < i ==> Var(c[k]) in frozen
      {
        if allFrozen && Var(c[i]) !in frozen {
          allFrozen := false;
        }
      }
    }

    ghost function Start(minSize: nat, maxSize: nat): Setting
      reads this`literals, this`garbage
    {
      Setting(literals, garbage, root, frozen, minSize, maxSize)
    }

    ghost function Now(): Stage
      reads this`literals, this`garbage, this`propagations
    {
      Stage(literals, garbage, propagations)
    }

    /** Connect the clauses and find those not tried yet.  Satisfied clauses are
        removed; clauses with only frozen literals are left alone. */
    method ConnectAll(clauses: seq<nat>, tried: set<nat>, minSize: nat, maxSize: nat)
      returns (untouched: set<nat>, schedule: seq<nat>)
      requires Disconnected() && NoDuplicates(clauses) && forall r :: r in clauses <==> r in literals
      modifies this`garbage, this`occs
      ensures Valid() && literals == old(literals) && garbage == old(garbage) + RootSatisfied(literals, root)
      ensures Reconstructs(F(), [], old(F()))
      ensures Scanned(clauses, |clauses|, old(Start(minSize, maxSize)), tried, Scan(garbage, untouched, schedule))
    {
      hide Connected, Watched, Positions, HasLists, Live, Units, Reconstructs, NoOccurrences, Val, HasTrue, OnlyFrozen,
           Scanned;
      occs := NoOccurrences(vars);
      untouched, schedule := {}, [];
      NothingReconstructs(F());
      ghost var pending, s := literals.Keys, Start(minSize, maxSize);
      assert clauses[..0] == [];
      ScannedNone(clauses, s, tried);
      for i := 0 to |clauses|
        invariant Connected(literals, pending, occs, frozen, vars) && Watched(literals, garbage, watches)
        invariant old(garbage) <= garbage && Reconstructs(F(), [], old(F()))
        invariant forall r :: r in pending ==> r in clauses[i..] || r in garbage
        invariant Scanned(clauses, i, s, tried, Scan(garbage, untouched, schedule))
      {
        var c := clauses[i];
        ghost var x := Scan(garbage, untouched, schedule);
        SplitAt(clauses, i);
        if c in garbage {
          ScannedNext(clauses, i, c, s, tried, x, x);
          continue;
        }
        var satisfied := IsSatisfied(literals[c]);
        if satisfied {
          SatisfiedRemoved(literals, garbage, root, c);
          NothingTwice(Live(literals, garbage + {c}) + Units(root), F(), old(F()));
          GarbageWatched(literals, garbage, watches, c);
          garbage := garbage + {c};
          ScannedNext(clauses, i, c, s, tried, x, x.(garbage := garbage));
          continue;
        }
        var allFrozen := AllFrozen(literals[c]);
        if allFrozen {
          untouched := untouched + {c};
          FrozenConnected(literals, pending, occs, frozen, vars, c);
          pending := pending - {c};
          ScannedNext(clauses, i, c, s, tried, x, x.(untouched := untouched));
          continue;
        }
        ConnectClause(c, pending);
        pending := pending - {c};
        if |literals[c]| < minSize || |literals[c]| > maxSize || c in tried {
          ScannedNext(clauses, i, c, s, tried, x, x);
          continue;
        }
        schedule := schedule + [c];
        ScannedNext(clauses, i, c, s, tried, x, x.(schedule := schedule));
      }
      assert clauses[|clauses|..] == [];
      FewerPending(literals, pending, garbage, occs, frozen, vars);
      ScannedGarbage(clauses, s, tried, Scan(garbage, untouched, schedule));
    }

    /** The schedule, to be worked off from the back: without untried clauses all
        of acceptable size get another chance, otherwise the tried ones come last. */
    method Schedule(clauses: seq<nat>, tried0: set<nat>, untouched: set<nat>, schedule0: seq<nat>, minSize: nat,
          maxSize: nat, ghost s: Setting)
      returns (tried: set<nat>, schedule: seq<nat>)
      requires NoDuplicates(clauses) && forall r :: r in clauses <==> r in literals
      requires s == Setting(literals, s.garbage, root, frozen, minSize, maxSize)
      requires Scanned(clauses, |clauses|, s, tried0, Scan(garbage, untouched, schedule0))
      ensures NoDuplicates(schedule) && forall r :: r in schedule <==> Eligible(r, s)
      ensures tried == StillTried(s, tried0) && StablySorted(schedule, clauses, literals, tried)
    {
      hide HasTrue, OnlyFrozen, StablySorted, Scanned, ListOrder, ComesBefore, NoDuplicates, AllTried;
      tried, schedule := tried0, schedule0;
      var again := schedule0 == [];
      RescannedNone(clauses, s, tried0, Scan(garbage, untouched, schedule0));
      for i := 0 to |clauses|
        invariant Rescanned(clauses, i, s, tried0, tried, schedule)
      {
        hide Rescanned;
        var c := clauses[i];
        ScannedAt(clauses, i, s, tried0, Scan(garbage, untouched, schedule0));
        RescannedNext(clauses, i, s, tried0, tried, schedule);
        if c in garbage || c in untouched || |literals[c]| < minSize || |literals[c]| > maxSize {
          continue;
        }
        if again {
          tried := tried - {c};
        } else if c !in tried {
          continue;
        }
        schedule := schedule + [c];
      }
      RescannedAll(clauses, s, tried0, tried, schedule);
      ghost var unsorted := schedule;
      schedule := StableSort(schedule, literals, tried);
      SortedAsListed(schedule, unsorted, clauses, literals, tried);
    }

    /** Try one more candidate. */
    method CoverNext(c: nat, ghost es0: seq<Entry>, ghost extension0: seq<Entry>, ghost f0: Formula,
          ghost literals0: map<nat, Clause>)
      returns (tautological: bool, ghost es: seq<Entry>, ghost t: Trial)
      requires Valid() && c in literals && c !in garbage && Reordered(literals, literals0)
      requires extension == extension0 + es0 && Reconstructs(F(), es0, f0)
      modifies this
      ensures Valid() && Reordered(literals, literals0) && literals.Keys == old(literals).Keys
      ensures old(garbage) <= garbage <= old(garbage) + {c}
      ensures extension == extension0 + es && Reconstructs(F(), es, f0)
      ensures t.c == c && t.before == old(Now()) && t.after == Now() && t.tautological == tautological
      ensures es == es0 + t.es && Tries(t, root, frozen)
    {
      hide Connected, Watched, Positions, HasLists, Live, Units, Reconstructs, Val, Consequence, Rest, HasTrue,
           Exhausted, RootWatched, Closed, Lits;
      ghost var before, f1 := Now(), F();
      ghost var more, x;
      tautological, more, x := CoverClause(c);
      ReorderedTrans(literals, before.literals, literals0);
      ReconstructsCompose(f0, es0, f1, more, F());
      es := es0 + more;
      t := Trial(c, before, Now(), tautological, more, x);
    }

    /** `cover_round`: every eligible clause is scheduled, those not tried before
        to come first, then larger ones.  They are tried in this order until the
        effort reaches its limit, and the clauses found to be covered counted. */
    method CoverRound(clauses: seq<nat>, tried0: set<nat>, minSize: nat, maxSize: nat, delta: nat)
      returns (tried: set<nat>, covered: nat, ghost es: seq<Entry>, ghost scheduled: seq<nat>,
        ghost trials: seq<Trial>)
      requires Disconnected() && NoDuplicates(clauses) && forall r :: r in clauses <==> r in literals
      modifies this
      ensures Valid() && Reordered(literals, old(literals)) && old(garbage) <= garbage
      ensures extension == old(extension) + es && Reconstructs(F(), es, old(F()))
      ensures NoDuplicates(scheduled) && forall r :: r in scheduled <==> Eligible(r, old(Start(minSize, maxSize)))
      ensures StablySorted(scheduled, clauses, old(literals), StillTried(old(Start(minSize, maxSize)), tried0))
      ensures Tracked(trials, Stage(old(literals), old(garbage) + RootSatisfied(old(literals), root),
        old(propagations)), Now(), scheduled, old(propagations) + delta, root, frozen)
      ensures |trials| < |scheduled| ==> propagations >= old(propagations) + delta
      ensures covered == CountCovered(trials)
      ensures tried == StillTried(old(Start(minSize, maxSize)), tried0) + Attempted(trials)
    {
      hide Connected, Watched, Positions, HasLists, Live, Units, Reconstructs, Reordered, Val, Consequence, Rest,
           NoOccurrences, NoDuplicates, HasTrue, Eligible, StablySorted, StillTried, Scanned, Tracked, Attempted,
           CountCovered;
      ghost var f0, s := F(), Start(minSize, maxSize);
      ghost var untried := StillTried(s, tried0);
      var limit := propagations + delta;
      var untouched, schedule := ConnectAll(clauses, tried0, minSize, maxSize);
      tried, schedule := Schedule(clauses, tried0, untouched, schedule, minSize, maxSize, s);
      covered, es, scheduled, trials := 0, [], schedule, [];
      NoTrial(Now(), schedule, limit, root, frozen);
      ReorderedSame(literals);
      ghost var stage1 := Now();
      EligibleLeft(s);
      while |schedule| != 0 && propagations < limit
        invariant Valid() && Reordered(literals, old(literals)) && old(garbage) <= garbage
        invariant literals.Keys == old(literals).Keys
        invariant NoDuplicates(schedule) && forall r :: r in schedule ==> r in literals && r !in garbage
        invariant extension == old(extension) + es && Reconstructs(F(), es, f0)
        invariant |schedule| + |trials| == |scheduled| && schedule == scheduled[..|schedule|]
        invariant Tracked(trials, stage1, Now(), scheduled, limit, root, frozen)
        invariant covered == CountCovered(trials) && tried == untried + Attempted(trials)
        decreases |schedule|
      {
        var c := schedule[|schedule| - 1];
        DropLast(schedule);
        schedule := schedule[..|schedule| - 1];
        tried := tried + {c};
        var tautological;
        ghost var t;
        tautological, es, t := CoverNext(c, es, old(extension), f0, old(literals));
        if tautological {
          covered := covered + 1;
        }
        CountNext(trials, t);
        OneMoreTrial(trials, t, stage1, scheduled, limit, root, frozen);
        trials := trials + [t];
      }
    }
  }

  // ------------------------------------------------------------------- trials

  datatype Stage = Stage(literals: map<nat, Clause>, garbage: set<nat>, effort: nat)

  /** What became of one scheduled clause: the result of `cover_clause`, the
      entries pushed and the extended clause. */
  datatype Trial = Trial(c: nat, before: Stage, after: Stage, tautological: bool, es: seq<Entry>, x: Extent)

  /** The outcome is one that `cover_clause` promises. */
  ghost predicate Tries(t: Trial, root: map<int, bool>, frozen: set<int>) {
    var (s0, s1) := (t.before, t.after);
    && t.c in s0.literals && t.c !in s0.garbage
    && Reordered(s1.literals, s0.literals) && s1.effort >= s0.effort
    && (s1.garbage == s0.garbage || s1.garbage == s0.garbage + {t.c})
    && Reconstructs(Live(s1.literals, s1.garbage) + Units(root), t.es, Live(s0.literals, s0.garbage) + Units(root))
    && (t.tautological ==> (t.c in s1.garbage <==> t.es != []))
    && (t.tautological && t.es == [] ==> Consequence(Rest(s0.literals, s1.garbage, t.c, root), Lits(s0.literals[t.c])))
    && (!t.tautological ==> t.es == [] && (t.c in s1.garbage <==> HasTrue(s0.literals[t.c], root)))
    && (!t.tautological && t.c !in s1.garbage ==>
          Exhausted(frozen, Rest(s0.literals, s1.garbage, t.c, root), s0.literals[t.c], root, t.x))
    && (RootWatched(s0.literals, s0.garbage, root) ==>
          && RootWatched(s1.literals, s1.garbage, root)
          && (!t.tautological && t.c !in s1.garbage ==> Closed(s1.literals, s1.garbage, t.c, t.x.vals)))
  }

  /** From stage `s` to stage `t` the schedule is worked off from the back, each
      clause before the effort has reached the limit. */
  ghost predicate Tracked(ts: seq<Trial>, s: Stage, t: Stage, schedule: seq<nat>, limit: nat, root: map<int, bool>,
        frozen: set<int>) {
    && |ts| <= |schedule|
    && (forall i :: 0 <= i < |ts| ==>
          && ts[i].c == schedule[|schedule| - 1 - i]
          && Tries(ts[i], root, frozen)
          && ts[i].before.effort < limit)
    && Chained(ts, s, t)
  }

  ghost predicate Chained(ts: seq<Trial>, s: Stage, t: Stage) {
    if ts == [] then s == t
    else Chained(ts[..|ts|-1], s, ts[|ts|-1].before) && ts[|ts|-1].after == t
  }

  ghost function CountCovered(ts: seq<Trial>): nat {
    |set i | 0 <= i < |ts| && ts[i].tautological|
  }

  ghost function Attempted(ts: seq<Trial>): set<nat> {
    set t | t in ts :: t.c
  }

  lemma NoTrial(s: Stage, schedule: seq<nat>, limit: nat, root: map<int, bool>, frozen: set<int>)
    ensures Tracked([], s, s, schedule, limit, root, frozen) && Attempted([]) == {} && CountCovered([]) == 0
  {
  }

  lemma OneMoreTrial(ts: seq<Trial>, t: Trial, s: Stage, schedule: seq<nat>, limit: nat, root: map<int, bool>,
        frozen: set<int>)
    requires Tracked(ts, s, t.before, schedule, limit, root, frozen)
    requires |ts| < |schedule| && t.c == schedule[|schedule|-1-|ts|] && t.before.effort < limit
    requires Tries(t, root, frozen)
    ensures Tracked(ts + [t], s, t.after, schedule, limit, root, frozen)
    ensures Attempted(ts + [t]) == Attempted(ts) + {t.c}
  {
    hide Tries;
    var us := ts + [t];
    assert us[..|us|-1] == ts;
    forall c
      ensures c in Attempted(us) <==> c in Attempted(ts) || c == t.c
    {
      if c in Attempted(ts) {
        var u :| u in ts && u.c == c;
        assert u in us;
      }
      assert t in us;
    }
  }

  lemma CountNext(ts: seq<Trial>, t: Trial)
    ensures CountCovered(ts + [t]) == CountCovered(ts) + if t.tautological then 1 else 0
  {
    var us := ts + [t];
    var more := if t.tautological then {|ts|} else {};
    assert (set i | 0 <= i < |us| && us[i].tautological) == (set i | 0 <= i < |ts| && ts[i].tautological) + more;
  }

  function BothSigns(vars: set<int>): set<Lit> {
    (set v | v in vars && v > 0 :: v as Lit) + (set v | v in vars && v > 0 :: (0 - v) as Lit)
  }

  function NoOccurrences(vars: set<int>): map<Lit, seq<nat>> {
    map l | l in BothSigns(vars) :: []
  }

  ghost predicate Listed(occs: map<Lit, seq<nat>>, l: Lit, c: nat) {
    l in occs && c in occs[l]
  }

  lemma OneMore(literals: map<nat, Clause>, pending: set<nat>, occs: map<Lit, seq<nat>>, frozen: set<int>,
        vars: set<int>, l: Lit, c: nat)
    requires Connected(literals, pending, occs, frozen, vars) && l in occs && c in literals && l in literals[c]
    ensures Connected(literals, pending, occs[l := occs[l] + [c]], frozen, vars)
  {
  }

  lemma NowConnected(literals: map<nat, Clause>, pending: set<nat>, occs: map<Lit, seq<nat>>, frozen: set<int>,
        vars: set<int>, c: nat)
    requires Connected(literals, pending, occs, frozen, vars) && c in literals
    requires forall k :: 0 <= k < |literals[c]| ==> Listed(occs, literals[c][k], c)
    ensures Connected(literals, pending - {c}, occs, frozen, vars)
  {
  }

  lemma FrozenConnected(literals: map<nat, Clause>, pending: set<nat>, occs: map<Lit, seq<nat>>, frozen: set<int>,
        vars: set<int>, c: nat)
    requires Connected(literals, pending, occs, frozen, vars) && c in literals
    requires OnlyFrozen(literals[c], frozen)
    ensures Connected(literals, pending - {c}, occs, frozen, vars)
  {
  }

  lemma FewerPending(literals: map<nat, Clause>, pending: set<nat>, garbage: set<nat>, occs: map<Lit, seq<nat>>,
        frozen: set<int>, vars: set<int>)
    requires Connected(literals, pending, occs, frozen, vars) && forall r :: r in pending ==> r in garbage
    ensures Connected(literals, garbage, occs, frozen, vars)
  {
  }

  lemma SplitAt(s: seq<nat>, i: nat)
    requires i < |s| && NoDuplicates(s)
    ensures s[i] !in s[..i] && s[i] !in s[i+1..] && s[i] in s
    ensures forall r :: r in s[..i+1] <==> r in s[..i] || r == s[i]
    ensures forall r :: r in s[i..] <==> r in s[i+1..] || r == s[i]
  {
    assert s[..i+1] == s[..i] + [s[i]] && s[i..] == [s[i]] + s[i+1..];
  }

  lemma DropLast(s: seq<nat>)
    requires s != [] && NoDuplicates(s)
    ensures NoDuplicates(s[..|s|-1]) && s[|s|-1] !in s[..|s|-1] && s[|s|-1] in s
    ensures forall r :: r in s[..|s|-1] ==> r in s
  {
  }

  lemma NothingTwice(f: Formula, g: Formula, h: Formula)
    requires Reconstructs(f, [], g) && Reconstructs(g, [], h)
    ensures Reconstructs(f, [], h)
  {
    var none: seq<Entry> := [];
    assert none + none == none;
    ReconstructsCompose(h, none, g, none, f);
  }

  lemma SomeCopied(steps: seq<Clause>, missing: Clause, id: nat)
    requires NoneEmpty(steps) && steps != []
    ensures Steps(steps, missing, id) != [] && Copied(steps, missing, id, |steps|) != []
  {
    assert |Steps(steps, missing, id)| == |steps|;
  }

  lemma GarbageWatched(literals: map<nat, Clause>, garbage: set<nat>, watches: WatchLists, c: nat)
    requires Watched(literals, garbage, watches)
    ensures Watched(literals, garbage + {c}, watches)
  {
  }

  lemma GarbageKeeps(literals: map<nat, Clause>, garbage: set<nat>, watches: WatchLists, occs: map<Lit, seq<nat>>,
      frozen: set<int>, vars: set<int>, c: nat)
    requires Connected(literals, garbage, occs, frozen, vars) && Watched(literals, garbage, watches)
    ensures Connected(literals, garbage + {c}, occs, frozen, vars) && Watched(literals, garbage + {c}, watches)
  {
  }

  lemma RestIs(literals: map<nat, Clause>, garbage: set<nat>, c: nat, root: map<int, bool>)
    requires c in literals && c !in garbage
    ensures Rest(literals, garbage, c, root) == Live(literals, garbage + {c}) + Units(root)
    ensures Rest(literals, garbage, c, root) + {Lits(literals[c])} == Live(literals, garbage) + Units(root)
    ensures Units(root) <= Rest(literals, garbage, c, root)
  {
    LiveRemove(literals, garbage, c);
  }

  lemma CoversFacts(f: Formula, c: Clause, root: map<int, bool>, vars: set<int>, vals: map<int, bool>,
      added: seq<Lit>, covered: seq<Lit>, extend: seq<int>, steps: seq<Clause>, id: nat)
    requires Covers(f, c, root, extend, steps, id) && CoveringC(covered, added, c, root)
    requires Assigned(vals, root, added, vars)
    ensures extend == FlatSteps(steps) && NoneEmpty(steps) && (extend == [] <==> steps == [])
    ensures Reconstructs(f, Steps(steps, Missing(c, root), id), f + {Lits(c)})
    ensures steps == [] ==> Reconstructs(f, [], f + {Lits(c)})
    ensures Unassigned(c, root) <= covered && forall l :: l in covered ==> Val(l, root) == 0
  {
    assert steps == [] ==> Steps(steps, Missing(c, root), id) == [];
  }

  lemma ImpliedWithout(f: Formula, c: set<Lit>)
    requires Reconstructs(f, [], f + {c})
    ensures Consequence(f, c)
  {
    forall m: Model | Models(m, f)
      ensures SatLits(c, m)
    {
      assert Replay([], m) == m && c in f + {c};
    }
  }

  /** The last entry does without the literals that are false at level zero. */
  lemma CopiedReconstructs(f: Formula, c: Clause, root: map<int, bool>, steps: seq<Clause>, id: nat)
    requires NoneEmpty(steps) && Units(root) <= f && (forall v :: v in root ==> v > 0)
    requires forall l :: l in c ==> Val(l, root) <= 0
    requires Reconstructs(f, Steps(steps, Missing(c, root), id), f + {Lits(c)})
    ensures Reconstructs(f, Copied(steps, Missing(c, root), id, |steps|), f + {Lits(c)})
  {
    if steps != [] {
      var n, missing := |steps|, Missing(c, root);
      CopiedLast(steps, missing, id, n);
      assert steps[..n] == steps;
      var rest, p := Steps(steps[..n-1], missing, id), steps[n-1];
      UnassignedHas(c, root);
      forall m: Model | Models(m, f)
        ensures Replay(Copied(steps, missing, id, n), m) == Replay(Steps(steps, missing, id), m)
      {
        AgreesUnits(m, root);
        assert SatClause(p + missing, m) <==> SatClause(p, m) by {
          if SatClause(p + missing, m) {
            var l :| l in p + missing && True(l, m);
            AgreesTrue(m, root, l);
          }
          if SatClause(p, m) {
            var l :| l in p && True(l, m);
            assert l in p + missing;
          }
        }
        ReplayConcat(rest, [Entry([p[0]], id + n, p)], m);
        ReplayConcat(rest, [Entry([p[0]], id + n, p + missing)], m);
        ReplayOne(Entry([p[0]], id + n, p), m);
        ReplayOne(Entry([p[0]], id + n, p + missing), m);
      }
    }
  }

  lemma ReplayOne(e: Entry, m: Model)
    ensures Replay([e], m) == ReplayEntry(e, m)
  {
    assert [e][..0] == [];
    assert Replay([], ReplayEntry(e, m)) == ReplayEntry(e, m);
  }

  lemma AssignedKeys(vals: map<int, bool>, root: map<int, bool>, added: seq<Lit>, vars: set<int>)
    requires Assigned(vals, root, added, vars)
    ensures vals.Keys <= root.Keys + ClauseVars(added)
  {
    forall v | v in vals.Keys
      ensures v in root.Keys + ClauseVars(added)
    {
      assert v in vals;
    }
  }

  lemma SameAssignment(vals: map<int, bool>, root: map<int, bool>)
    requires vals.Keys <= root.Keys && forall v :: v in root ==> v in vals && vals[v] == root[v]
    ensures vals == root
  {
    forall v | v in root
      ensures v in vals.Keys && vals[v] == root[v]
    {
      assert v in vals;
    }
    forall v | v in vals
      ensures v in root && vals[v] == root[v]
    {
      assert v in vals.Keys && v in root.Keys;
    }
    assert vals.Keys == root.Keys;
  }

  lemma Falsifiable(c: Clause, root: map<int, bool>)
    requires !HasTrue(c, root)
    ensures forall l :: l in c ==> Val(l, root) <= 0
  {
  }

  lemma NothingReconstructs(f: Formula)
    ensures Reconstructs(f, [], f)
  {
    assert forall m: Model :: Replay([], m) == m;
  }

  lemma SatisfiedRemoved(literals: map<nat, Clause>, garbage: set<nat>, root: map<int, bool>, c: nat)
    requires c in literals && c !in garbage && HasTrue(literals[c], root)
    requires forall v :: v in root ==> v > 0
    ensures Reconstructs(Live(literals, garbage + {c}) + Units(root), [], Live(literals, garbage) + Units(root))
  {
    var l :| l in literals[c] && Val(l, root) > 0;
    forall m: Model | Models(m, Live(literals, garbage + {c}) + Units(root))
      ensures Models(Replay([], m), Live(literals, garbage) + Units(root))
    {
      AgreesUnits(m, root);
      AgreesTrue(m, root, l);
      assert l in Lits(literals[c]);
      LiveRemove(literals, garbage, c);
    }
  }

  function PushLiteral(e: Entry, l: Lit): Entry {
    e.(clause := e.clause + [l])
  }

  /** The first `k` steps on the extension stack, the last of them still without
      the missing literals. */
  function Copied(ps: seq<Clause>, missing: Clause, id: nat, k: nat): seq<Entry>
    requires NoneEmpty(ps) && k <= |ps|
  {
    if k == 0 then [] else Steps(ps[..k-1], missing, id) + [StepEntry(ps[k-1], [], id + k)]
  }

  /** The first `k` steps and `i` literals of the next one have been copied. */
  ghost predicate Copying(extension: seq<Entry>, clauseId: nat, before: seq<Entry>, id: nat, ps: seq<Clause>,
        missing: Clause, k: nat, i: int) {
    && NoneEmpty(ps) && k < |ps| && i <= |ps[k]|
    && (if i <= 0 then clauseId == id + k && extension == before + Copied(ps, missing, id, k)
        else && clauseId == id + k + 1
             && extension == before + Steps(ps[..k], missing, id) + [Entry([ps[k][0]], id + k + 1, ps[k][..i])])
  }

  lemma CopiedStep(extension: seq<Entry>, clauseId: nat, before: seq<Entry>, id: nat, ps: seq<Clause>, missing: Clause,
        k: nat)
    requires NoneEmpty(ps) && k < |ps| && Copying(extension, clauseId, before, id, ps, missing, k, |ps[k]|)
    ensures clauseId == id + k + 1 && extension == before + Copied(ps, missing, id, k + 1)
  {
    CopiedLast(ps, missing, id, k + 1);
    assert ps[k][..|ps[k]|] == ps[k];
    assert ps[k] != [];
  }

  lemma AppendToTop(before: seq<Entry>, e: Entry, l: Lit)
    ensures (before + [e])[|before| := PushLiteral(e, l)] == before + [PushLiteral(e, l)]
  {
  }

  /** The next literal is in the right place among the covered ones exactly if it
      was unassigned. */
  lemma UnassignedNext(c: Clause, i: nat, root: map<int, bool>, covered: seq<Lit>)
    requires i < |c| && Unassigned(c, root) <= covered && forall l :: l in covered ==> Val(l, root) == 0
    ensures var j := |Unassigned(c[..i], root)|;
            (j < |covered| && c[i] == covered[j]) <==> Val(c[i], root) == 0
  {
    UnassignedPrefix(c, i + 1, root);
    var j := |Unassigned(c[..i], root)|;
    assert c[..i+1][..i] == c[..i];
    if Val(c[i], root) == 0 {
      assert Unassigned(c[..i+1], root)[j] == c[i];
    } else if j < |covered| {
      assert covered[j] in covered;
    }
  }

  lemma {:induction false} UnassignedPrefix(c: Clause, i: nat, root: map<int, bool>)
    requires i <= |c|
    ensures Unassigned(c[..i], root) <= Unassigned(c, root)
    decreases |c|
  {
    if i < |c| {
      UnassignedPrefix(c[..|c|-1], i, root);
      assert c[..|c|-1][..i] == c[..i];
    } else {
      assert c[..i] == c;
    }
  }

  /** Where the `k`-th step is on the flat stack. */
  lemma {:induction false} FlatStepsAt(ps: seq<Clause>, k: nat)
    requires k < |ps|
    ensures |FlatSteps(ps[..k+1])| == |FlatSteps(ps[..k])| + 1 + |ps[k]| <= |FlatSteps(ps)|
    ensures |FlatSteps(ps[..k+1])| == |FlatSteps(ps)| <==> k + 1 == |ps|
    ensures FlatSteps(ps)[|FlatSteps(ps[..k])|] == 0
    ensures forall i :: 0 <= i < |ps[k]| ==> FlatSteps(ps)[|FlatSteps(ps[..k])| + 1 + i] == ps[k][i]
    decreases |ps|
  {
    var n := |ps| - 1;
    assert ps[..k+1][..k] == ps[..k];
    if k == n {
      assert ps[..k+1] == ps;
    } else {
      var qs := ps[..n];
      FlatStepsAt(qs, k);
      assert qs[..k+1] == ps[..k+1] && qs[..k] == ps[..k];
    }
  }

  lemma CopiedNone(ps: seq<Clause>, missing: Clause, id: nat)
    requires NoneEmpty(ps)
    ensures Copied(ps, missing, id, 0) == [] && Steps(ps[..0], missing, id) == []
    ensures FlatSteps(ps[..0]) == []
  {
    assert ps[..0] == [];
  }

  lemma CopiedLast(ps: seq<Clause>, missing: Clause, id: nat, k: nat)
    requires NoneEmpty(ps) && 0 < k <= |ps|
    ensures Copied(ps, missing, id, k) == Steps(ps[..k-1], missing, id) + [Entry([ps[k-1][0]], id + k, ps[k-1])]
    ensures Steps(ps[..k], missing, id) ==
      Steps(ps[..k-1], missing, id) + [Entry([ps[k-1][0]], id + k, ps[k-1] + missing)]
  {
    assert ps[k-1] + [] == ps[k-1];
  }

  lemma UnmovedTrans(a: map<nat, Clause>, b: map<nat, Clause>, c: map<nat, Clause>, r: nat)
    ensures Unmoved(a, b, r) && Unmoved(b, c, r) ==> Unmoved(a, c, r)
    ensures Unmoved(a, a, r)
  {
  }

  lemma OtherUnmoved(now: map<nat, Clause>, before: map<nat, Clause>, r: nat, ignore: nat)
    requires OthersSame(now, before, r) && r != ignore
    ensures Unmoved(now, before, ignore)
  {
  }

  lemma NoRepetition(literals: map<nat, Clause>, garbage: set<nat>, occs: map<Lit, seq<nat>>, frozen: set<int>,
        vars: set<int>, r: nat)
    requires Connected(literals, garbage, occs, frozen, vars) && r in literals
    ensures NoDuplicates(literals[r])
  {
  }

  lemma CandidateFacts(literals: map<nat, Clause>, garbage: set<nat>, occs: map<Lit, seq<nat>>, frozen: set<int>,
        vars: set<int>, r: nat)
    requires Connected(literals, garbage, occs, frozen, vars) && r in literals
    ensures forall i, k :: 0 <= i < k < |literals[r]| ==> Var(literals[r][k]) != Var(literals[r][i])
    ensures forall l :: l in literals[r] ==> Var(l) in vars
  {
    var c := literals[r];
    assert ClauseVars(c) <= vars;
    forall l | l in c
      ensures Var(l) in vars
    {
      assert Var(l) in ClauseVars(c);
    }
    forall i, k | 0 <= i < k < |c|
      ensures Var(c[k]) != Var(c[i])
    {
      assert c[i] in c && c[k] in c && c[i] != c[k] && Neg(c[i]) !in c;
    }
  }

  lemma NothingAdded(f: Formula, root: map<int, bool>, vars: set<int>, candidate: nat, literals: map<nat, Clause>,
        garbage: set<nat>)
    requires f == Rest(literals, garbage, candidate, root) && root.Keys <= vars && forall v :: v in vars ==> v > 0
    ensures Assigned(root, root, [], vars) && Forced(f, [], root) && Units(root) <= f
  {
    forall m: Model | Models(m, f)
      ensures Agrees(m, root)
    {
      AgreesUnits(m, root);
    }
  }

  lemma StartExtended(f: Formula, c: Clause, root: map<int, bool>, vars: set<int>, vals: map<int, bool>,
      added: seq<Lit>, covered: seq<Lit>, id: nat)
    requires Assigned(vals, root, added, vars) && Forced(f, covered, vals) && Units(root) <= f
    requires covered == Unassigned(c, root) && added == covered && forall l :: l in c ==> Val(l, root) <= 0
    ensures Extended(f, c, root, vars, vals, added, covered, [], [], id)
  {
    UnassignedHas(c, root);
    assert Steps([], Missing(c, root), id) == [];
    forall m: Model | Models(m, f) && SatClause(covered, m)
      ensures Models(Replay([], m), f + {Lits(c)})
    {
      var l :| l in covered && True(l, m);
      assert l in Lits(c);
    }
  }

  lemma ExtendedFacts(f: Formula, c: Clause, root: map<int, bool>, vars: set<int>, vals: map<int, bool>,
      added: seq<Lit>, covered: seq<Lit>, extend: seq<int>, steps: seq<Clause>, id: nat)
    requires Extended(f, c, root, vars, vals, added, covered, extend, steps, id)
    ensures Assigned(vals, root, added, vars) && CoveringC(covered, added, c, root)
  {
  }

  lemma AddedFacts(f: Formula, c: Clause, root: map<int, bool>, vars: set<int>, vals: map<int, bool>,
      added: seq<Lit>, covered: seq<Lit>, extend: seq<int>, steps: seq<Clause>, id: nat, lit: Lit)
    requires Extended(f, c, root, vars, vals, added, covered, extend, steps, id) && lit in added
    ensures Val(lit, vals) < 0 && Var(lit) in vars && Forced(f, covered, vals) && Assigned(vals, root, added, vars)
  {
  }

  lemma ProgressFacts(vars: set<int>, vals0: map<int, bool>, added0: seq<Lit>, next0: nat, vals: map<int, bool>,
        added: seq<Lit>, next: nat)
    requires Progress(vars, vals0, added0, next0, vals, added, next)
    ensures added0 <= added && (next <= next0)
    ensures (vals == vals0 && added == added0 && next == next0) || (Free(vars, vals) < Free(vars, vals0) && next == 0)
  {
  }

  lemma ExtendedAsymmetric(f: Formula, c: Clause, root: map<int, bool>, vars: set<int>, vals0: map<int, bool>,
        vals: map<int, bool>,
      added0: seq<Lit>, added: seq<Lit>, covered: seq<Lit>, extend: seq<int>, steps: seq<Clause>, id: nat,
      subsumed: bool)
    requires Extended(f, c, root, vars, vals0, added0, covered, extend, steps, id)
    requires Assigned(vals, root, added, vars) && Forced(f, covered, vals) && added0 <= added
    requires subsumed ==> AlwaysCovered(f, covered)
    ensures Extended(f, c, root, vars, vals, added, covered, extend, steps, id)
    ensures CoveringC(covered, added, c, root)
    ensures subsumed ==> Covers(f, c, root, extend, steps, id)
  {
    if subsumed {
      SubsumedRepairs(f, Steps(steps, Missing(c, root), id), covered, Lits(c));
    }
  }

  /** No literal occurs together with its negation. */
  ghost predicate Consistent(s: seq<Lit>) {
    forall i, j :: 0 <= i < |s| && 0 <= j < |s| ==> s[i] != Neg(s[j])
  }

  lemma OthersUnassigned(s: seq<Lit>, k: nat, vals: map<int, bool>)
    requires k < |s| && NoDuplicates(s) && Consistent(s)
    requires forall j :: k <= j < |s| ==> Val(s[j], vals) == 0
    ensures Val(s[k], vals) == 0
    ensures forall j :: k < j < |s| ==> Val(s[j], SetFalse(s[k], vals)) == 0
  {
    forall j | k < j < |s|
      ensures Val(s[j], SetFalse(s[k], vals)) == 0
    {
      assert s[j] in s && s[k] in s && s[j] != s[k];
      assert s[j] != Neg(s[k]);
    }
  }

  lemma NoLits()
    ensures Lits([]) == {} && NoDuplicates<Lit>([])
  {
  }

  /** The literals of `c` other than `l`. */
  function Without(c: Clause, l: Lit): Clause {
    if c == [] then [] else Without(c[..|c|-1], l) + (if c[|c|-1] == l then [] else [c[|c|-1]])
  }

  lemma {:induction false} WithoutHas(c: Clause, l: Lit)
    ensures forall x :: x in Without(c, l) <==> x in c && x != l
  {
    if c != [] {
      WithoutHas(c[..|c|-1], l);
    }
  }

  /** The literals of `c` without a value at level zero, in order. */
  function Unassigned(c: Clause, root: map<int, bool>): Clause {
    if c == [] then []
    else Unassigned(c[..|c|-1], root) + if Val(c[|c|-1], root) == 0 then [c[|c|-1]] else []
  }

  /** The others, which are false unless the clause is satisfied. */
  function Missing(c: Clause, root: map<int, bool>): Clause {
    if c == [] then []
    else Missing(c[..|c|-1], root) + if Val(c[|c|-1], root) == 0 then [] else [c[|c|-1]]
  }

  lemma {:induction false} UnassignedHas(c: Clause, root: map<int, bool>)
    ensures forall x :: x in Unassigned(c, root) <==> x in c && Val(x, root) == 0
    ensures forall x :: x in Missing(c, root) <==> x in c && Val(x, root) != 0
  {
    if c != [] {
      UnassignedHas(c[..|c|-1], root);
    }
  }

  ghost predicate CoveringC(covered: seq<Lit>, added: seq<Lit>, c: Clause, root: map<int, bool>) {
    && (forall l :: l in covered ==> l in added)
    && Unassigned(c, root) <= covered
    && (forall l :: l in c ==> Val(l, root) <= 0)
  }

  /** The steps on the private stack cover the clause `c`. */
  ghost predicate Covers(f: Formula, c: Clause, root: map<int, bool>, extend: seq<int>, steps: seq<Clause>, id: nat) {
    && extend == FlatSteps(steps) && NoneEmpty(steps)
    && Reconstructs(f, Steps(steps, Missing(c, root), id), f + {Lits(c)})
  }

  /** The state between two steps, for the candidate `c`. */
  ghost predicate Extended(f: Formula, c: Clause, root: map<int, bool>, vars: set<int>, vals: map<int, bool>,
      added: seq<Lit>, covered: seq<Lit>, extend: seq<int>, steps: seq<Clause>, id: nat)
  {
    && Assigned(vals, root, added, vars) && Forced(f, covered, vals) && CoveringC(covered, added, c, root)
    && Units(root) <= f && (forall v :: v in root ==> v > 0)
    && extend == FlatSteps(steps) && NoneEmpty(steps)
    && Repairs(f, Steps(steps, Missing(c, root), id), covered, Lits(c))
  }

  lemma RunFacts(f: Formula, c: Clause, root: map<int, bool>, vars: set<int>, vals: map<int, bool>,
      added: seq<Lit>, covered: seq<Lit>, extend: seq<int>, steps: seq<Clause>, id: nat, lit: Lit)
    requires Extended(f, c, root, vars, vals, added, covered, extend, steps, id) && lit in covered
    ensures Val(lit, vals) < 0 && Var(lit) !in root && Var(lit) in vars
    ensures extend == FlatSteps(steps) && NoneEmpty(steps)
    ensures Assigned(vals, root, added, vars) && Forced(f, covered, vals) && CoveringC(covered, added, c, root)
  {
  }

  lemma HasOccurrences(literals: map<nat, Clause>, garbage: set<nat>, occs: map<Lit, seq<nat>>, frozen: set<int>,
        vars: set<int>, l: Lit)
    requires Connected(literals, garbage, occs, frozen, vars) && Var(l) in vars
    ensures l in occs
  {
  }

  /** The list of `l` has been permuted. */
  ghost predicate Permuted(now: map<Lit, seq<nat>>, occs: map<Lit, seq<nat>>, l: Lit) {
    && l in occs && now.Keys == occs.Keys && multiset(now[l]) == multiset(occs[l])
    && (forall r :: r in now[l] <==> r in occs[l])
    && (forall k :: k in occs && k != l ==> now[k] == occs[k])
  }

  lemma RelistedConnected(literals: map<nat, Clause>, garbage: set<nat>, occs: map<Lit, seq<nat>>, now: map<Lit,
        seq<nat>>,
      frozen: set<int>, vars: set<int>, l: Lit)
    requires Connected(literals, garbage, occs, frozen, vars) && Permuted(now, occs, l)
    ensures Connected(literals, garbage, now, frozen, vars)
  {
    forall k
      ensures k in now <==> k in occs
    {
      assert k in now.Keys <==> k in occs.Keys;
    }
  }

  /** What the occurrence list says about all clauses of the formula. */
  lemma CandidatesIntersect(literals: map<nat, Clause>, garbage: set<nat>, occs: map<Lit, seq<nat>>, frozen: set<int>,
        vars: set<int>,
      root: map<int, bool>, vals: map<int, bool>, candidate: nat, lit: Lit, intersection: seq<Lit>)
    requires Connected(literals, garbage, occs, frozen, vars) && Var(lit) !in frozen && Var(lit) !in root
    requires Neg(lit) in occs
    requires intersection == [] ==> AllBlocked(literals, garbage, lit, vals, occs[Neg(lit)])
    requires intersection != [] ==> Intersected(intersection, literals, garbage, lit, vals, occs[Neg(lit)])
    ensures Intersects(Rest(literals, garbage, candidate, root), lit, vals, intersection)
  {
    forall d | d in Rest(literals, garbage, candidate, root) && Neg(lit) in d
      ensures DoublySatisfied(d, lit, vals) || (intersection != [] && forall x :: x in intersection ==> x in d)
    {
      if d in Units(root) {
        assert false;
      } else {
        var r :| r in literals && r !in garbage + {candidate} && Lits(literals[r]) == d;
        assert Neg(lit) in literals[r];
        if !DoublySatisfied(d, lit, vals) {
          assert Unblocked(literals, garbage, r, lit, vals);
        }
      }
    }
  }

  lemma IntersectionFacts(literals: map<nat, Clause>, garbage: set<nat>, occs: map<Lit, seq<nat>>, frozen: set<int>,
        vars: set<int>,
      vals: map<int, bool>, lit: Lit, intersection: seq<Lit>)
    requires Connected(literals, garbage, occs, frozen, vars) && Neg(lit) in occs
    requires !AllBlocked(literals, garbage, lit, vals, occs[Neg(lit)])
    requires intersection != [] ==> Intersected(intersection, literals, garbage, lit, vals, occs[Neg(lit)])
    ensures Consistent(intersection) && forall x :: x in intersection ==> Val(x, vals) == 0 && Var(x) in vars
  {
    var r :| r in occs[Neg(lit)] && Unblocked(literals, garbage, r, lit, vals);
    assert ClauseVars(literals[r]) <= vars;
    forall x | x in intersection
      ensures x in literals[r] && Var(x) in vars
    {
      assert Common(x, literals, garbage, lit, vals, occs[Neg(lit)]);
      assert Var(x) in ClauseVars(literals[r]);
    }
    forall i, j | 0 <= i < |intersection| && 0 <= j < |intersection|
      ensures intersection[i] != Neg(intersection[j])
    {
      assert intersection[i] in literals[r] && intersection[j] in literals[r];
    }
  }

  /** The literals that are false at level zero do not matter. */
  lemma StepSame(f: Formula, covered: Clause, lit: Lit, c: Clause, root: map<int, bool>)
    requires lit in covered && Units(root) <= f && (forall v :: v in root ==> v > 0)
    requires forall l :: l in c ==> Val(l, root) <= 0
    ensures SameOn(f, [lit] + Without(covered, lit) + Missing(c, root), covered)
  {
    WithoutHas(covered, lit);
    UnassignedHas(c, root);
    var e := [lit] + Without(covered, lit) + Missing(c, root);
    forall m: Model | Models(m, f)
      ensures SatClause(e, m) <==> SatClause(covered, m)
    {
      AgreesUnits(m, root);
      if SatClause(e, m) {
        var l :| l in e && True(l, m);
        AgreesTrue(m, root, l);
        assert l in covered;
      }
      if SatClause(covered, m) {
        var l :| l in covered && True(l, m);
        assert l in e;
      }
    }
  }

  lemma RunBlocked(f: Formula, c: Clause, root: map<int, bool>, vars: set<int>, vals: map<int, bool>,
      added: seq<Lit>, covered: seq<Lit>, extend0: seq<int>, steps: seq<Clause>, id: nat, lit: Lit, extend: seq<int>)
    requires Extended(f, c, root, vars, vals, added, covered, extend0, steps, id) && lit in covered
    requires Intersects(f, lit, vals, []) && extend == FlatSteps(steps + [[lit] + Without(covered, lit)])
    ensures Covers(f, c, root, extend, steps + [[lit] + Without(covered, lit)], id)
  {
    hide Repairs, Forced, Intersects, Reconstructs, FlatSteps, SameOn, Units, Without, Missing, Steps, Lits;
    var p := [lit] + Without(covered, lit);
    StepSame(f, covered, lit, c, root);
    StepsAppend(steps, p, Missing(c, root), id);
    CoveredLiterals(f, covered, vals, lit, [], Steps(steps, Missing(c, root), id),
      StepEntry(p, Missing(c, root), id + 1 + |steps|), Lits(c));
  }

  lemma RunCovered(f: Formula, c: Clause, root: map<int, bool>, vars: set<int>, vals0: map<int, bool>, vals: map<int,
        bool>,
      added0: seq<Lit>, added: seq<Lit>, covered: seq<Lit>, intersection: seq<Lit>, extend0: seq<int>,
      steps: seq<Clause>, id: nat, lit: Lit, extend: seq<int>)
    requires Extended(f, c, root, vars, vals0, added0, covered, extend0, steps, id) && lit in covered
    requires Intersects(f, lit, vals0, intersection) && extend == FlatSteps(steps + [[lit] + Without(covered, lit)])
    requires forall x :: x in intersection ==> Val(x, vals0) == 0
    requires added == added0 + intersection && Assigned(vals, root, added, vars)
    requires Forced(f, covered + intersection, vals)
    ensures Extended(f, c, root, vars, vals, added, covered + intersection, extend,
      steps + [[lit] + Without(covered, lit)], id)
  {
    hide Repairs, Forced, Intersects, Reconstructs, FlatSteps, SameOn, Units, Without, Missing, Steps, Lits;
    var p := [lit] + Without(covered, lit);
    StepSame(f, covered, lit, c, root);
    StepsAppend(steps, p, Missing(c, root), id);
    CoveredLiterals(f, covered, vals0, lit, intersection, Steps(steps, Missing(c, root), id),
      StepEntry(p, Missing(c, root), id + 1 + |steps|), Lits(c));
  }

  /** A resolution candidate that is not doubly satisfied. */
  ghost predicate Unblocked(literals: map<nat, Clause>, garbage: set<nat>, r: nat, lit: Lit, vals: map<int, bool>) {
    r in literals && r !in garbage && !DoublySatisfied(Lits(literals[r]), lit, vals)
  }

  ghost predicate AllBlocked(literals: map<nat, Clause>, garbage: set<nat>, lit: Lit, vals: map<int, bool>,
        rs: seq<nat>) {
    forall r :: r in rs ==> !Unblocked(literals, garbage, r, lit, vals)
  }

  /** An unassigned literal of all candidates in `rs` that are not doubly satisfied. */
  ghost predicate Common(x: Lit, literals: map<nat, Clause>, garbage: set<nat>, lit: Lit, vals: map<int, bool>,
        rs: seq<nat>) {
    && Val(x, vals) == 0 && x != Neg(lit)
    && forall r :: r in rs && Unblocked(literals, garbage, r, lit, vals) ==> x in literals[r]
  }

  /** Exactly the common unassigned literals of the candidates in `rs`. */
  ghost predicate Intersected(inter: seq<Lit>, literals: map<nat, Clause>, garbage: set<nat>, lit: Lit, vals: map<int,
        bool>, rs: seq<nat>) {
    forall x :: x in inter <==> Common(x, literals, garbage, lit, vals, rs)
  }

  lemma CandidateClauses(literals: map<nat, Clause>, garbage: set<nat>, occs: map<Lit, seq<nat>>, frozen: set<int>,
        vars: set<int>, l: Lit)
    requires Connected(literals, garbage, occs, frozen, vars) && l in occs
    ensures forall r :: r in occs[l] ==> r in literals && NoDuplicates(literals[r])
  {
  }

  lemma NoCandidates(literals: map<nat, Clause>, garbage: set<nat>, lit: Lit, vals: map<int, bool>)
    ensures AllBlocked(literals, garbage, lit, vals, [])
  {
  }

  lemma IntersectedValues(inter: seq<Lit>, literals: map<nat, Clause>, garbage: set<nat>, lit: Lit, vals: map<int,
        bool>, rs: seq<nat>)
    requires Intersected(inter, literals, garbage, lit, vals, rs)
    ensures forall x :: x in inter ==> Val(x, vals) == 0 && x != Neg(lit)
  {
  }

  lemma SkipCandidate(literals: map<nat, Clause>, garbage: set<nat>, lit: Lit, vals: map<int, bool>, os: seq<nat>,
        i: nat, inter: seq<Lit>)
    requires i < |os| && !Unblocked(literals, garbage, os[i], lit, vals)
    ensures AllBlocked(literals, garbage, lit, vals, os[..i+1]) <==> AllBlocked(literals, garbage, lit, vals, os[..i])
    ensures Intersected(inter, literals, garbage, lit, vals, os[..i]) ==>
      Intersected(inter, literals, garbage, lit, vals, os[..i+1])
  {
    var before, now := os[..i], os[..i+1];
    assert now == before + [os[i]];
    assert forall r :: r in now <==> r in before || r == os[i];
    forall x
      ensures Common(x, literals, garbage, lit, vals, now) <==> Common(x, literals, garbage, lit, vals, before)
    {
      if Common(x, literals, garbage, lit, vals, now) {
        assert forall r :: r in before ==> r in now;
      }
    }
  }

  lemma PermutedBy(occs: map<Lit, seq<nat>>, l: Lit, os: seq<nat>)
    requires l in occs && multiset(os) == multiset(occs[l]) && forall r :: r in os <==> r in occs[l]
    ensures Permuted(occs[l := os], occs, l)
  {
  }

  lemma CommonFirst(literals: map<nat, Clause>, garbage: set<nat>, lit: Lit, vals: map<int, bool>, os: seq<nat>, i: nat,
        inter: seq<Lit>)
    requires i < |os| && AllBlocked(literals, garbage, lit, vals, os[..i])
    requires Unblocked(literals, garbage, os[i], lit, vals)
    requires forall x :: x in inter <==> x in literals[os[i]] && x != Neg(lit) && Val(x, vals) == 0
    ensures Intersected(inter, literals, garbage, lit, vals, os[..i+1])
    ensures !AllBlocked(literals, garbage, lit, vals, os[..i+1])
  {
    var before, now := os[..i], os[..i+1];
    assert now == before + [os[i]];
    assert os[i] in now;
    forall r
      ensures r in now && Unblocked(literals, garbage, r, lit, vals) <==> r == os[i]
    {
      assert r in now ==> r in before || r == os[i];
    }
    forall x
      ensures x in inter <==> Common(x, literals, garbage, lit, vals, now)
    {
      assert Common(x, literals, garbage, lit, vals, now) ==> x in literals[os[i]];
      if x in inter {
        assert Common(x, literals, garbage, lit, vals, now);
      }
    }
  }

  lemma CommonNext(literals: map<nat, Clause>, garbage: set<nat>, lit: Lit, vals: map<int, bool>, os: seq<nat>, i: nat,
        was: seq<Lit>, inter: seq<Lit>)
    requires i < |os| && Unblocked(literals, garbage, os[i], lit, vals)
    requires Intersected(was, literals, garbage, lit, vals, os[..i])
    requires forall x :: x in inter <==> x in was && x in literals[os[i]]
    ensures Intersected(inter, literals, garbage, lit, vals, os[..i+1])
    ensures !AllBlocked(literals, garbage, lit, vals, os[..i+1])
  {
    var before, now := os[..i], os[..i+1];
    assert now == before + [os[i]];
    assert os[i] in now;
    forall x
      ensures x in inter <==> Common(x, literals, garbage, lit, vals, now)
    {
      if Common(x, literals, garbage, lit, vals, now) {
        assert forall r :: r in before ==> r in now;
        assert Common(x, literals, garbage, lit, vals, before);
      }
      if Common(x, literals, garbage, lit, vals, before) && x in literals[os[i]] {
        assert Common(x, literals, garbage, lit, vals, now);
      }
    }
  }

  lemma NoneCommon(literals: map<nat, Clause>, garbage: set<nat>, lit: Lit, vals: map<int, bool>, os: seq<nat>, i: nat)
    requires i < |os| && Unblocked(literals, garbage, os[i], lit, vals)
    requires Intersected([], literals, garbage, lit, vals, os[..i+1])
    ensures Intersected([], literals, garbage, lit, vals, os)
    ensures !AllBlocked(literals, garbage, lit, vals, os)
  {
    forall x
      ensures !Common(x, literals, garbage, lit, vals, os)
    {
      assert Common(x, literals, garbage, lit, vals, os) ==> Common(x, literals, garbage, lit, vals, os[..i+1]);
    }
    assert os[i] in os;
  }

  lemma SameCommon(literals: map<nat, Clause>, garbage: set<nat>, lit: Lit, vals: map<int, bool>, os: seq<nat>,
        now: seq<nat>)
    requires forall r :: r in os <==> r in now
    ensures Intersected([], literals, garbage, lit, vals, os) ==> Intersected([], literals, garbage, lit, vals, now)
    ensures AllBlocked(literals, garbage, lit, vals, os) <==> AllBlocked(literals, garbage, lit, vals, now)
  {
  }

  lemma ProgressTrans(vars: set<int>, vals0: map<int, bool>, added0: seq<Lit>, next0: nat, vals1: map<int, bool>,
        added1: seq<Lit>, next1: nat,
      vals: map<int, bool>, added: seq<Lit>, next: nat)
    requires Progress(vars, vals0, added0, next0, vals1, added1, next1)
    requires Progress(vars, vals1, added1, next1, vals, added, next)
    ensures Progress(vars, vals0, added0, next0, vals, added, next)
  {
  }

  lemma NoProgress(vars: set<int>, vals: map<int, bool>, added: seq<Lit>, next: nat)
    ensures Progress(vars, vals, added, next, vals, added, next)
  {
  }

  lemma PositionOf(literals: map<nat, Clause>, pos: map<nat, nat>, r: nat)
    requires Positions(literals, pos) && r in literals
    ensures r in pos && 2 <= pos[r] <= |literals[r]|
  {
  }

  lemma PositionsKept(now: map<nat, Clause>, before: map<nat, Clause>, pos: map<nat, nat>, r: nat, k: nat)
    requires Reordered(now, before) && Positions(before, pos) && r in before && 2 <= k <= |before[r]|
    ensures Positions(now, pos[r := k]) && Positions(now, pos)
  {
    forall q | q in now
      ensures |now[q]| == |before[q]|
    {
      SameSize(now, before, q);
    }
  }

  lemma WatchFacts(literals: map<nat, Clause>, garbage: set<nat>, watches: WatchLists, occs: map<Lit, seq<nat>>,
      frozen: set<int>, vars: set<int>, lit: Lit, a: seq<Watch>, w: Watch, b: seq<Watch>)
    requires Connected(literals, garbage, occs, frozen, vars)
    requires Watched(literals, garbage, watches[lit := a + [w] + b])
    ensures w.clause in literals && w.size == |literals[w.clause]| >= 2
    ensures lit == literals[w.clause][0] || lit == literals[w.clause][1]
    ensures Var(w.blit) in vars
    ensures w.size == 2 ==> forall l :: l in Lits(literals[w.clause]) ==> l == lit || l == w.blit
  {
    var ws := watches[lit := a + [w] + b];
    assert lit in ws;
    assert ListOf(lit, ws[lit], literals) && ws[lit][|a|] == w;
    assert Var(w.blit) in ClauseVars(literals[w.clause]);
  }

  lemma SwapLong(literals: map<nat, Clause>, garbage: set<nat>, watches: WatchLists, occs: map<Lit, seq<nat>>,
      frozen: set<int>, vars: set<int>, lit: Lit, a: seq<Watch>, w: Watch, b: seq<Watch>)
    requires Connected(literals, garbage, occs, frozen, vars)
    requires Watched(literals, garbage, watches[lit := a + [w] + b])
    requires w.clause in literals && |literals[w.clause]| > 2
    requires lit == literals[w.clause][0] || lit == literals[w.clause][1]
    ensures var c := SecondWatch(literals[w.clause], lit); var now := literals[w.clause := c];
            && Watched(now, garbage, watches[lit := a + [w] + b]) && Reordered(now, literals)
            && |c| == |literals[w.clause]| && c[1] == lit && Lits(c) == Lits(literals[w.clause])
            && forall l :: l in c ==> Var(l) in vars
  {
    var r := w.clause;
    var c := SecondWatch(literals[r], lit);
    SwapWatches(literals, garbage, watches[lit := a + [w] + b], r, lit);
    SameLiterals(literals[r], c);
    assert ClauseVars(literals[r]) <= vars;
    forall l | l in c
      ensures Var(l) in vars
    {
      assert l in literals[r];
      assert Var(l) in ClauseVars(literals[r]);
    }
  }

  lemma ExchangeKeeps(now: map<nat, Clause>, before: map<nat, Clause>, r: nat, k: nat)
    requires Reordered(now, before) && r in now && 1 < |now[r]| && k < |now[r]|
    ensures Reordered(now[r := Exchange(now[r], 1, k)], before)
    ensures |Exchange(now[r], 1, k)| == |now[r]|
  {
  }

  lemma MovedMap(c: Clause, watches: WatchLists, l: Lit, a: seq<Watch>, w: Watch, b: seq<Watch>, k: nat)
    requires k < |c| && c[k] in watches && c[k] != l
    ensures Moved(c, watches, l, a, w, b, k) == watches[c[k] := watches[c[k]] + [Watch(w.clause, l, |c|)]][l := a + b]
    ensures l in watches ==> watches[c[k] := watches[c[k]] + [Watch(w.clause, l, |c|)]].Keys == watches.Keys
  {
  }

  lemma AllFalseBut(c: Clause, lit: Lit, vals: map<int, bool>, d: set<Lit>)
    requires |c| >= 2 && c[1] == lit && Val(lit, vals) < 0 && d == Lits(c)
    requires forall j :: 2 <= j < |c| ==> Val(c[j], vals) < 0
    ensures forall l :: l in d && l != c[0] ==> Val(l, vals) < 0
  {
  }

  // ------------------------------------------------------------ when it gives up

  /** The first `n` covered literals are of no use. */
  ghost predicate AllStuck(frozen: set<int>, f: Formula, covered: Clause, n: nat, vals: map<int, bool>)
    requires n <= |covered|
  {
    forall k :: 0 <= k < n ==> Stuck(frozen, f, covered[k], vals)
  }

  lemma FrozenStuck(frozen: set<int>, f: Formula, lit: Lit, vals: map<int, bool>)
    requires Var(lit) in frozen
    ensures Stuck(frozen, f, lit, vals)
  {
  }

  lemma AssignedKeeps(vals: map<int, bool>, root: map<int, bool>, added: seq<Lit>, vars: set<int>)
    requires Assigned(vals, root, added, vars)
    ensures KeepsValues(root, vals) && forall l :: l in added ==> Val(l, vals) < 0
  {
  }

  lemma PrefixFalse(added: seq<Lit>, n: nat, vals: map<int, bool>)
    requires n <= |added| && forall l :: l in added ==> Val(l, vals) < 0
    ensures forall l :: l in Lits(added[..n]) ==> Val(l, vals) < 0
  {
  }

  lemma PrefixLits(before: seq<Lit>, added: seq<Lit>, n: nat)
    requires before <= added && n < |before|
    ensures Lits(added[..n+1]) == Lits(before[..n]) + {before[n]}
  {
    assert added[..n+1] == before[..n] + [before[n]];
  }

  lemma AssignedGrows(vals0: map<int, bool>, added0: seq<Lit>, vals: map<int, bool>, added: seq<Lit>,
        root: map<int, bool>, vars: set<int>)
    requires Assigned(vals0, root, added0, vars) && Assigned(vals, root, added, vars) && added0 <= added
    ensures KeepsValues(vals0, vals)
  {
    forall l | Val(l, vals0) != 0
      ensures Val(l, vals) == Val(l, vals0)
    {
      if Var(l) !in root {
        var k :| k in added0 && Var(k) == Var(l);
        assert k in added;
      }
    }
  }

  lemma AtLeastTwo(literals: map<nat, Clause>, pos: map<nat, nat>)
    requires Positions(literals, pos)
    ensures forall r :: r in literals ==> |literals[r]| >= 2
  {
  }

  /** All literals of the candidate are false. */
  lemma CandidateFalse(f: Formula, c: Clause, root: map<int, bool>, vars: set<int>, vals: map<int, bool>,
      added: seq<Lit>, covered: seq<Lit>, extend: seq<int>, steps: seq<Clause>, id: nat)
    requires Extended(f, c, root, vars, vals, added, covered, extend, steps, id)
    ensures forall l :: l in c ==> Val(l, vals) < 0 || (Var(l) in root && Val(l, vals) <= 0)
  {
    UnassignedHas(c, root);
    forall l | l in c
      ensures Val(l, vals) < 0 || (Var(l) in root && Val(l, vals) <= 0)
    {
      if Val(l, root) == 0 {
        assert l in Unassigned(c, root) && l in covered;
      }
    }
  }

  /** Some candidates are open, and they have no literal in common. */
  lemma NothingToCover(literals: map<nat, Clause>, garbage: set<nat>, occs: map<Lit, seq<nat>>, frozen: set<int>,
        vars: set<int>, root: map<int, bool>, vals: map<int, bool>, candidate: nat, lit: Lit)
    requires Connected(literals, garbage, occs, frozen, vars) && Neg(lit) in occs && Val(lit, vals) < 0
    requires Intersected([], literals, garbage, lit, vals, occs[Neg(lit)])
    requires !AllBlocked(literals, garbage, lit, vals, occs[Neg(lit)])
    requires candidate in literals ==> forall l :: l in literals[candidate] ==> Val(l, vals) <= 0
    ensures Stuck(frozen, Rest(literals, garbage, candidate, root), lit, vals)
  {
    var f, rs := Rest(literals, garbage, candidate, root), occs[Neg(lit)];
    forall r | r in rs && Unblocked(literals, garbage, r, lit, vals)
      ensures OpenCandidate(f, lit, vals, Lits(literals[r]))
    {
      assert Neg(lit) in literals[r] && Val(Neg(lit), vals) > 0;
      InRest(literals, garbage, candidate, root, r);
    }
    var r :| r in rs && Unblocked(literals, garbage, r, lit, vals);
    assert OpenCandidate(f, lit, vals, Lits(literals[r]));
    forall x | Val(x, vals) == 0
      ensures exists d :: OpenCandidate(f, lit, vals, d) && x !in d
    {
      assert !Common(x, literals, garbage, lit, vals, rs);
      var q :| q in rs && Unblocked(literals, garbage, q, lit, vals) && x !in literals[q];
      assert OpenCandidate(f, lit, vals, Lits(literals[q])) && x !in Lits(literals[q]);
    }
  }

  lemma FewerWatched(literals: map<nat, Clause>, garbage: set<nat>, c: nat, root: map<int, bool>)
    ensures RootWatched(literals, garbage, root) ==> RootWatched(literals, garbage + {c}, root)
  {
  }

  lemma ExtentExhausted(frozen: set<int>, f: Formula, cand: Clause, root: map<int, bool>, vars: set<int>,
        vals: map<int, bool>, added: seq<Lit>, covered: seq<Lit>)
    requires Assigned(vals, root, added, vars) && CoveringC(covered, added, cand, root)
    requires AllStuck(frozen, f, covered, |covered|, vals)
    ensures Exhausted(frozen, f, cand, root, Extent(vals, covered))
  {
    hide Stuck;
    AssignedKeeps(vals, root, added, vars);
    UnassignedHas(cand, root);
    forall l | l in cand && Val(l, root) == 0
      ensures l in covered
    {
      assert l in Unassigned(cand, root);
    }
  }

  lemma ExtentClosed(literals: map<nat, Clause>, garbage: set<nat>, candidate: nat, root: map<int, bool>,
        vars: set<int>, vals: map<int, bool>, added: seq<Lit>)
    requires Assigned(vals, root, added, vars) && AllPassed(literals, garbage, candidate, vals, Lits(added))
    ensures RootWatched(literals, garbage, root) ==> Closed(literals, garbage, candidate, vals)
  {
    hide AllPassed, RootWatched, KeepsValues, Closed;
    AssignedKeeps(vals, root, added, vars);
    forall l | Val(l, vals) < 0
      ensures l in Lits(added) || Val(l, root) < 0
    {
      if Var(l) !in root {
        var k :| k in added && Var(k) == Var(l);
        assert k == l || k == Neg(l);
      }
    }
    if RootWatched(literals, garbage, root) {
      ClosedAtEnd(literals, garbage, candidate, vals, Lits(added), root);
    }
  }
}

/** The online forward DRUP checker. */
module Checking {
  import opened Logic
  import opened Clauses
  import opened Watching
  import opened Propagation
  import opened ClauseTable
  import opened Simplify
  import opened LiveClauses

  /** Stored clauses have two literals or more, over known variables, and are implied. */
  ghost predicate Stored(orig: Formula, literals: map<nat, Clause>, garbage: set<nat>, vars: set<int>, next: nat) {
    && AllImplied(orig, literals)
    && (forall r :: r in literals ==> r < next && |literals[r]| >= 2 && ClauseVars(literals[r]) <= vars)
    && garbage <= literals.Keys
  }

  /** Assigned variables are known and on the trail. */
  ghost predicate Trailed(vars: set<int>, vals: map<int, bool>, trail: seq<Lit>, watches: WatchLists) {
    && vals.Keys <= vars && Grown(map[], [], vals, trail) && (forall l: Lit :: Var(l) in vars ==> l in watches)
    && forall l :: l in trail ==> Var(l) in vars && Val(l, vals) > 0
  }

  /** The clauses that have not been deleted. */
  ghost function Refs(literals: map<nat, Clause>, garbage: set<nat>): set<nat> {
    literals.Keys - garbage
  }

  /** Exactly the known variables have watch lists. */
  ghost predicate Sized(vars: set<int>, sizeVars: nat, lists: set<Lit>) {
    (forall v :: v in vars ==> 0 < v < sizeVars) && forall l: Lit :: l in lists ==> Var(l) in vars
  }

  /** All clauses have a hash; `next` is a new reference. */
  ghost predicate Hashed(literals: map<nat, Clause>, hash: map<nat, nat>, next: nat) {
    literals.Keys <= hash.Keys && forall r :: r in hash ==> r < next
  }

  lemma HashedMore(literals: map<nat, Clause>, hash: map<nat, nat>, next: nat, c: Clause, x: nat)
    requires Hashed(literals, hash, next)
    ensures Hashed(literals[next := c], hash[next := x], next + 1) && next !in hash
  {
  }

  lemma HashedFewer(literals: map<nat, Clause>, hash: map<nat, nat>, next: nat, garbage: set<nat>)
    requires Hashed(literals, hash, next)
    ensures Hashed(literals - garbage, hash, next)
  {
  }

  lemma HashedSame(now: map<nat, Clause>, literals: map<nat, Clause>, hash: map<nat, nat>, next: nat)
    requires Hashed(literals, hash, next) && now.Keys == literals.Keys
    ensures Hashed(now, hash, next)
  {
  }

  lemma SizedLists(vars: set<int>, sizeVars: nat, watches: WatchLists)
    requires Sized(vars, sizeVars, watches.Keys)
    ensures forall l :: l in watches ==> Var(l) < sizeVars
  {
    forall l | l in watches
      ensures Var(l) < sizeVars
    {
      assert l in watches.Keys;
    }
  }

  lemma ReorderedStored(orig: Formula, now: map<nat, Clause>, before: map<nat, Clause>, garbage: set<nat>,
        vars: set<int>, next: nat)
    requires Stored(orig, before, garbage, vars, next) && Reordered(now, before)
    ensures Stored(orig, now, garbage, vars, next)
  {
    forall r | r in now
      ensures r < next && |now[r]| >= 2 && ClauseVars(now[r]) <= vars && Consequence(orig, Lits(now[r]))
    {
      ReorderedLits(now, before, r);
      SameSize(now, before, r);
      assert Consequence(orig, Lits(before[r]));
      forall v | v in ClauseVars(now[r])
        ensures v in vars
      {
        var l :| l in now[r] && Var(l) == v;
        assert l in before[r] && v in ClauseVars(before[r]);
      }
    }
  }

  class Checker {
    const nonces: seq<nat>
    ghost var originals: Formula               // added so far, never removed
    ghost var added: multiset<set<Lit>>        // added or derived, and not deleted
    var literals: map<nat, Clause>
    var garbage: set<nat>            // deleted, but still in watch lists
    var next: nat
    var watches: WatchLists
    ghost var vars: set<int>
    var vals: map<int, bool>
    var trail: seq<Lit>
    var nextToPropagate: nat
    var inconsistent: bool
    var clauses: Table
    var hash: map<nat, nat>
    var numClauses: int
    var numGarbage: int
    var sizeVars: nat
    var marks: set<Lit>
    var simplified: Clause
    var lastId: nat

    /** What holds while watch lists are visited; `ws` are the lists with the one being
        filtered as it would be now. */
    ghost predicate Engine(ws: WatchLists)
      reads this`originals, this`literals, this`garbage, this`next, this`vars, this`vals, this`trail
    {
      && Watched(literals, garbage, ws)
      && Stored(originals, literals, garbage, vars, next)
      && Trailed(vars, vals, trail, ws)
    }

    ghost function Left(): nat
      reads this`vars, this`vals, this`trail
    {
      Free(vars, vals) + |trail|
    }

    method Assign(l: Lit, ghost vals0: map<int, bool>, ghost trail0: seq<Lit>)
      requires Trailed(vars, vals, trail, watches) && Val(l, vals) == 0 && Var(l) in vars
      requires Grown(vals0, trail0, vals, trail)
      modifies this`vals, this`trail
      ensures Trailed(vars, vals, trail, watches) && Grown(vals0, trail0, vals, trail) && Left() == old(Left())
      ensures vals == SetFalse(Neg(l), old(vals)) && trail == old(trail) + [l]
    {
      hide Grown, Free;
      OneLess(vars, vals, l);
      GrownAssign(vals0, trail0, vals, trail, l);
      GrownAssign(map[], [], vals, trail, l);
      vals := vals[Var(l) := l > 0];
      trail := trail + [l];
    }

    /** One watch of the false literal `lit`: does it stay, and is there no conflict? */
    method VisitWatch(lit: Lit, w: Watch, ghost a: seq<Watch>, ghost b: seq<Watch>, ghost c: Clause,
          ghost vals0: map<int, bool>, ghost trail0: seq<Lit>)
      returns (keep: seq<Watch>, res: bool)
      requires lit in watches && Engine(watches[lit := a + [w] + b]) && Val(lit, vals) < 0
      requires Follows(originals, c, vals) && nextToPropagate <= |trail|
      requires SafeBut(literals, garbage, vals, trail[nextToPropagate..], lit, [w] + b)
      requires Safe(literals, garbage, vals0, []) && Grown(vals0, trail0, vals, trail)
      modifies this`literals, this`watches, this`vals, this`trail
      ensures watches.Keys == old(watches).Keys && watches[lit] == old(watches)[lit] && |keep| <= 1
      ensures Engine(watches[lit := a + keep + b])
      ensures Reordered(literals, old(literals)) && old(trail) <= trail && Left() == old(Left()) && Val(lit, vals) < 0
      ensures Safe(literals, garbage, vals0, []) && Grown(vals0, trail0, vals, trail)
      ensures res ==> Follows(originals, c, vals) && SafeBut(literals, garbage, vals, trail[nextToPropagate..], lit, b)
      ensures !res ==> Consequence(originals, Lits(c))
    {
      hide Watched, Stored, Trailed, Follows, SafeBut, Safe, Grown, Consequence, Reordered, Free;
      keep, res := [w], true;
      ReorderedSame(literals);
      WatchedClauseOf(originals, literals, garbage, watches, vars, next, lit, a, w, b);
      var v := Val(w.blit, vals);
      if v > 0 {
        HasTrueIn(literals[w.clause], w.blit, vals);
        Visited(literals, garbage, vals, trail[nextToPropagate..], lit, w, b);
        return;
      }
      if w.size == 2 {
        if v < 0 {
          ConflictFollows(originals, c, vals, literals[w.clause]);
          res := false;
        } else {
          Imply(w, w.blit, lit, a, b, c, vals0, trail0);
        }
      } else {
        if w.clause in garbage {
          DropGarbage(literals, garbage, watches, lit, a, w, b);
          Visited(literals, garbage, vals, trail[nextToPropagate..], lit, w, b);
          SameTrailed(vars, vals, trail, watches, lit, a + [w] + b, a + b);
          assert a + [] + b == a + b;
          keep := [];
          return;
        }
        keep, res := VisitLong(lit, w, a, b, c, vals0, trail0);
      }
    }

    /** The false watched literal becomes the second literal of its clause. */
    method BringSecond(lit: Lit, other: Lit, w: Watch, ghost a: seq<Watch>, ghost b: seq<Watch>, ghost vals0: map<int,
          bool>)
      requires lit in watches && Engine(watches[lit := a + [w] + b]) && nextToPropagate <= |trail|
      requires w.clause in literals && w.clause !in garbage && |literals[w.clause]| > 2
      requires var c := literals[w.clause]; (lit == c[0] && other == c[1]) || (lit == c[1] && other == c[0])
      requires SafeBut(literals, garbage, vals, trail[nextToPropagate..], lit, [w] + b)
      requires Safe(literals, garbage, vals0, [])
      modifies this`literals
      ensures Engine(watches[lit := a + [w] + b]) && Reordered(literals, old(literals)) && w.clause in literals
      ensures var c := literals[w.clause]; |c| > 2 && c[0] == other && c[1] == lit && other != lit
      ensures SafeBut(literals, garbage, vals, trail[nextToPropagate..], lit, [w] + b)
      ensures Safe(literals, garbage, vals0, [])
    {
      hide Watched, Stored, Trailed, SafeBut, Safe, Reordered, SecondWatch;
      var r := w.clause;
      DifferentWatches(literals, garbage, watches[lit := a + [w] + b], r);
      SwapWatches(literals, garbage, watches[lit := a + [w] + b], r, lit);
      SecondSafe(literals, garbage, vals, trail[nextToPropagate..], lit, [w] + b, r);
      SecondRoot(literals, garbage, vals0, lit, r);
      SecondReorders(literals, r, lit, other);
      literals := literals[r := SecondWatch(literals[r], lit)];
      ReorderedStored(originals, literals, old(literals), garbage, vars, next);
    }

    /** The first literal from the third on that is not false. */
    method FindReplacement(c: Clause) returns (k: nat)
      requires |c| > 2
      ensures 2 <= k <= |c| && (k < |c| ==> Val(c[k], vals) >= 0) && (forall j :: 2 <= j < k ==> Val(c[j], vals) < 0)
    {
      k := 2;
      while k < |c| && Val(c[k], vals) < 0
        invariant 2 <= k <= |c| && forall j :: 2 <= j < k ==> Val(c[j], vals) < 0
      {
        k := k + 1;
      }
    }

    /** The clause is watched by its literal at position `k` instead of `lit`. */
    method Move(lit: Lit, w: Watch, k: nat, ghost a: seq<Watch>, ghost b: seq<Watch>, ghost vals0: map<int, bool>)
      requires lit in watches && Engine(watches[lit := a + [w] + b]) && nextToPropagate <= |trail| && Below(vals0, vals)
      requires w.clause in literals && w.clause !in garbage && 2 <= k < |literals[w.clause]|
      requires literals[w.clause][1] == lit && literals[w.clause][0] != lit && Val(literals[w.clause][k], vals) >= 0
      requires SafeBut(literals, garbage, vals, trail[nextToPropagate..], lit, [w] + b)
      requires Safe(literals, garbage, vals0, [])
      modifies this`literals, this`watches
      ensures watches.Keys == old(watches).Keys && watches[lit] == old(watches)[lit]
      ensures Engine(watches[lit := a + b]) && Reordered(literals, old(literals))
      ensures SafeBut(literals, garbage, vals, trail[nextToPropagate..], lit, b) && Safe(literals, garbage, vals0, [])
    {
      hide Watched, Stored, Trailed, SafeBut, Safe, Reordered, Exchange, Moved;
      var r, c := w.clause, literals[w.clause];
      MoveWatch(literals, garbage, watches, lit, a, w, b, k);
      MovedSafe(literals, garbage, vals, trail[nextToPropagate..], lit, w, b, k);
      MovedRoot(literals, garbage, vals0, vals, r, k);
      ExchangeReorders(literals, r, k);
      ListsMoved(c, watches, lit, a, w, b, k);
      literals := literals[r := Exchange(c, 1, k)];
      watches := watches[c[k] := watches[c[k]] + [Watch(r, lit, |c|)]];
      ReorderedStored(originals, literals, old(literals), garbage, vars, next);
      KeysTrailed(vars, vals, trail, old(watches)[lit := a + [w] + b], watches[lit := a + b]);
    }

    /** A watch of a clause with more than two literals that is not deleted. */
    method VisitLong(lit: Lit, w: Watch, ghost a: seq<Watch>, ghost b: seq<Watch>, ghost c: Clause,
          ghost vals0: map<int, bool>, ghost trail0: seq<Lit>)
      returns (keep: seq<Watch>, res: bool)
      requires lit in watches && Engine(watches[lit := a + [w] + b]) && Val(lit, vals) < 0
      requires Follows(originals, c, vals) && nextToPropagate <= |trail|
      requires w.clause in literals && w.clause !in garbage && |literals[w.clause]| > 2
      requires lit == literals[w.clause][0] || lit == literals[w.clause][1]
      requires SafeBut(literals, garbage, vals, trail[nextToPropagate..], lit, [w] + b)
      requires Safe(literals, garbage, vals0, []) && Grown(vals0, trail0, vals, trail)
      modifies this`literals, this`watches, this`vals, this`trail
      ensures watches.Keys == old(watches).Keys && watches[lit] == old(watches)[lit] && |keep| <= 1
      ensures Engine(watches[lit := a + keep + b])
      ensures Reordered(literals, old(literals)) && old(trail) <= trail && Left() == old(Left()) && Val(lit, vals) < 0
      ensures Safe(literals, garbage, vals0, []) && Grown(vals0, trail0, vals, trail)
      ensures res ==> Follows(originals, c, vals) && SafeBut(literals, garbage, vals, trail[nextToPropagate..], lit, b)
      ensures !res ==> Consequence(originals, Lits(c))
    {
      hide Watched, Stored, Trailed, Follows, SafeBut, Safe, Grown, Consequence, Reordered, Free, HasTrue;
      keep, res := [w], true;
      ReorderedSame(literals);
      var r := w.clause;
      var other := if literals[r][0] == lit then literals[r][1] else literals[r][0];
      var otherVal := Val(other, vals);
      if otherVal > 0 {
        HasTrueIn(literals[r], other, vals);
        ChangeBlit(literals, garbage, watches, lit, a, w, b, other);
        Visited(literals, garbage, vals, trail[nextToPropagate..], lit, w, b);
        SameTrailed(vars, vals, trail, watches, lit, a + [w] + b, a + [w.(blit := other)] + b);
        keep := [w.(blit := other)];
        return;
      }
      BringSecond(lit, other, w, a, b, vals0);
      var k := FindReplacement(literals[r]);
      if k < |literals[r]| {
        ghost var before := literals;
        GrownBelow(vals0, trail0, vals, trail);
        Move(lit, w, k, a, b, vals0);
        ReorderedTrans(literals, before, old(literals));
        assert a + [] + b == a + b;
        keep := [];
      } else if otherVal == 0 {
        WatchedClauseOf(originals, literals, garbage, watches, vars, next, lit, a, w, b);
        Imply(w, other, lit, a, b, c, vals0, trail0);
      } else {
        WatchedClauseOf(originals, literals, garbage, watches, vars, next, lit, a, w, b);
        ConflictFollows(originals, c, vals, literals[r]);
        res := false;
      }
    }

    /** Visit all watches of a false literal, filtering the list in place. */
    method PropagateLiteral(lit: Lit, ghost p: Lit, ghost c: Clause, ghost vals0: map<int, bool>,
          ghost trail0: seq<Lit>)
      returns (res: bool)
      requires Engine(watches) && lit in watches && Val(lit, vals) < 0 && Follows(originals, c, vals)
      requires nextToPropagate <= |trail| && lit == Neg(p)
      requires Safe(literals, garbage, vals, [p] + trail[nextToPropagate..])
      requires Safe(literals, garbage, vals0, []) && Grown(vals0, trail0, vals, trail)
      modifies this`literals, this`watches, this`vals, this`trail
      ensures watches.Keys == old(watches).Keys && Engine(watches) && Reordered(literals, old(literals))
      ensures old(trail) <= trail && Left() == old(Left())
      ensures Safe(literals, garbage, vals0, []) && Grown(vals0, trail0, vals, trail)
      ensures res ==> Follows(originals, c, vals) && Safe(literals, garbage, vals, trail[nextToPropagate..])
      ensures !res ==> Consequence(originals, Lits(c))
    {
      hide Watched, Stored, Trailed, Follows, SafeBut, Safe, Grown, Consequence, Reordered, Free, Val;
      res := true;
      var ws := watches[lit];
      var kept: seq<Watch> := [];
      var i := 0;
      ReorderedSame(literals);
      StartVisit(literals, garbage, vals, trail[nextToPropagate..], watches, p);
      assert [] + ws[0..] == ws && watches[lit := ws] == watches && ws[0..] == ws;
      while res && i < |ws|
        invariant 0 <= i <= |ws| && watches.Keys == old(watches).Keys && watches[lit] == ws
        invariant Engine(watches[lit := kept + ws[i..]])
        invariant Reordered(literals, old(literals)) && old(trail) <= trail && Left() == old(Left())
        invariant Val(lit, vals) < 0
        invariant Safe(literals, garbage, vals0, []) && Grown(vals0, trail0, vals, trail)
        invariant res ==>
          Follows(originals, c, vals) && SafeBut(literals, garbage, vals, trail[nextToPropagate..], lit, ws[i..])
        invariant !res ==> Consequence(originals, Lits(c))
      {
        assert kept + ws[i..] == kept + [ws[i]] + ws[i+1..] && ws[i..] == [ws[i]] + ws[i+1..];
        ghost var before := literals;
        var keep: seq<Watch>;
        keep, res := VisitWatch(lit, ws[i], kept, ws[i+1..], c, vals0, trail0);
        ReorderedTrans(literals, before, old(literals));
        kept := kept + keep;
        i := i + 1;
      }
      if res {
        EndVisit(literals, garbage, vals, trail[nextToPropagate..], lit, ws[i..]);
      }
      watches := watches[lit := kept + ws[i..]];
    }

    /** `propagate`: false if a clause is falsified. */
    method Propagate(ghost c: Clause, ghost vals0: map<int, bool>, ghost trail0: seq<Lit>) returns (res: bool)
      requires Engine(watches) && Follows(originals, c, vals) && nextToPropagate <= |trail|
      requires Safe(literals, garbage, vals, trail[nextToPropagate..])
      requires Safe(literals, garbage, vals0, []) && Grown(vals0, trail0, vals, trail)
      modifies this`literals, this`watches, this`vals, this`trail, this`nextToPropagate
      ensures watches.Keys == old(watches).Keys && Engine(watches) && Reordered(literals, old(literals))
      ensures old(trail) <= trail
      ensures Safe(literals, garbage, vals0, []) && Grown(vals0, trail0, vals, trail) && nextToPropagate <= |trail|
      ensures res ==> Follows(originals, c, vals) && Safe(literals, garbage, vals, []) && nextToPropagate == |trail|
      ensures !res ==> Consequence(originals, Lits(c))
    {
      hide Watched, Stored, Follows, Safe, Grown, Consequence, Reordered, Free;
      res := true;
      ReorderedSame(literals);
      while res && nextToPropagate < |trail|
        invariant nextToPropagate <= |trail| && watches.Keys == old(watches).Keys && Engine(watches)
        invariant Reordered(literals, old(literals)) && old(trail) <= trail
        invariant Safe(literals, garbage, vals0, []) && Grown(vals0, trail0, vals, trail)
        invariant res ==> Follows(originals, c, vals) && Safe(literals, garbage, vals, trail[nextToPropagate..])
        invariant !res ==> Consequence(originals, Lits(c))
        decreases Left() - nextToPropagate, res
      {
        var p := trail[nextToPropagate];
        assert p in trail && trail[nextToPropagate..] == [p] + trail[nextToPropagate+1..];
        nextToPropagate := nextToPropagate + 1;
        ghost var before := literals;
        res := PropagateLiteral(Neg(p), p, c, vals0, trail0);
        ReorderedTrans(literals, before, old(literals));
      }
      if res {
        assert trail[nextToPropagate..] == [];
      }
    }

    /** `backtrack`. */
    method Backtrack(previouslyPropagated: nat, ghost vals0: map<int, bool>, ghost trail0: seq<Lit>)
      requires Grown(vals0, trail0, vals, trail) && previouslyPropagated == |trail0|
      modifies this`vals, this`trail, this`nextToPropagate
      ensures vals == vals0 && trail == trail0 && nextToPropagate == |trail|
    {
      hide Grown;
      GrownLonger(vals0, trail0, vals, trail);
      while |trail| > previouslyPropagated
        invariant Grown(vals0, trail0, vals, trail) && |trail| >= |trail0|
        decreases |trail|
      {
        var lit := trail[|trail| - 1];
        GrownPop(vals0, trail0, vals, trail);
        vals := vals - {Var(lit)};
        trail := trail[..|trail| - 1];
      }
      GrownNothing(vals0, trail0, vals, trail);
      nextToPropagate := previouslyPropagated;
    }

    /** The simplified clause has known variables, and no true or clashing literals. */
    ghost predicate Prepared()
      reads this`simplified, this`vars, this`vals
    {
      forall l :: l in simplified ==> Var(l) in vars && Neg(l) !in simplified && Val(l, vals) <= 0
    }

    /** `check`: assume the negation of the clause and propagate.  The clause is
        accepted only if the originals imply it; it is refused only if the assignment
        reached falsifies it and is a fixpoint over the clauses not deleted. */
    method Check() returns (res: bool, ghost reached: map<int, bool>)
      requires Engine(watches) && Follows(originals, [], vals) && nextToPropagate == |trail|
      requires Safe(literals, garbage, vals, [])
      requires inconsistent ==> Consequence(originals, {})
      requires Prepared() && NoDuplicates(simplified)
      modifies this`literals, this`watches, this`vals, this`trail, this`nextToPropagate
      ensures vals == old(vals) && trail == old(trail) && nextToPropagate == |trail|
      ensures watches.Keys == old(watches).Keys
      ensures Engine(watches) && Reordered(literals, old(literals)) && Safe(literals, garbage, vals, [])
      ensures res ==> Consequence(originals, Lits(simplified))
      ensures !res ==>
        && Below(vals, reached)
        && Fixpoint(literals, garbage, reached)
        && forall l :: l in simplified ==> Val(l, reached) < 0
    {
      hide Watched, Stored, Trailed, Follows, Safe, Grown, Consequence, Reordered, Free, Fixpoint;
      reached := vals;
      ReorderedSame(literals);
      if inconsistent {
        FromFalse(originals, Lits(simplified));
        return true, reached;
      }
      var previouslyPropagated := nextToPropagate;
      ghost var vals0, trail0 := vals, trail;
      AssumeAll(vals0, trail0);
      ghost var vals1, trail1 := vals, trail;
      var ok := Propagate(simplified, vals0, trail0);
      res := !ok;
      reached := vals;
      FalseStays(vars, vals1, trail1, old(watches), vals, trail, watches);
      GrownBelow(vals0, trail0, vals, trail);
      if ok {
        SafeIsFixpoint(literals, garbage, vals);
      }
      KeysTrailed(vars, vals0, trail0, old(watches), watches);
      Backtrack(previouslyPropagated, vals0, trail0);
    }

    /** All literals of the clause are assumed to be false. */
    method AssumeAll(ghost vals0: map<int, bool>, ghost trail0: seq<Lit>)
      requires Engine(watches) && Follows(originals, [], vals) && nextToPropagate == |trail|
      requires Safe(literals, garbage, vals, [])
      requires Prepared() && NoDuplicates(simplified)
      requires vals0 == vals && trail0 == trail
      modifies this`vals, this`trail
      ensures Engine(watches) && Follows(originals, simplified, vals) && nextToPropagate <= |trail|
      ensures Grown(vals0, trail0, vals, trail)
      ensures Safe(literals, garbage, vals, trail[nextToPropagate..])
      ensures forall l :: l in simplified ==> Val(l, vals) < 0
    {
      hide Watched, Stored, Trailed, Follows, Safe, Grown, Free;
      WeakerFollows(originals, simplified, vals);
      GrownNot(vals, trail);
      assert trail[nextToPropagate..] == [];
      for k := 0 to |simplified|
        invariant Engine(watches) && Follows(originals, simplified, vals) && nextToPropagate <= |trail|
        invariant Grown(vals0, trail0, vals, trail)
        invariant Safe(literals, garbage, vals, trail[nextToPropagate..])
        invariant forall j :: 0 <= j < k ==> Val(simplified[j], vals) < 0
        invariant forall j :: k <= j < |simplified| ==> Val(simplified[j], vals) <= 0
      {
        var lit := simplified[k];
        assert lit in simplified;
        if Val(Neg(lit), vals) > 0 {
          continue;
        }
        assert Neg(Neg(lit)) == lit;
        AssumeFollows(originals, simplified, vals, lit);
        SafeAssign(literals, garbage, vals, trail[nextToPropagate..], Neg(lit));
        OthersUnassigned(simplified, k, vals);
        ghost var before := trail;
        Assign(Neg(lit), vals0, trail0);
        assert trail[nextToPropagate..] == before[nextToPropagate..] + [Neg(lit)];
      }
    }

    // ---------------------------------------------------------- storing clauses

    /** Between operations: unless the checker is inconsistent, the assignment follows
        from the originals and no watch needs attention. */
    ghost predicate Ready()
      reads this
    {
      && Watching()
      && |nonces| == 4
      && marks == {}
      && Hashed(literals, hash, next)
      && TableOk(clauses, hash, Refs(literals, garbage))
    }

    ghost predicate Watching()
      reads this`originals, this`literals, this`garbage, this`next, this`vars, this`vals, this`trail, this`watches,
            this`nextToPropagate,
        this`sizeVars, this`inconsistent
    {
      && Engine(watches) && nextToPropagate <= |trail| && Sized(vars, sizeVars, watches.Keys)
      && if inconsistent then Consequence(originals, {})
         else Follows(originals, [], vals) && nextToPropagate == |trail| && Safe(literals, garbage, vals, [])
    }

    /** What is stored represents the clauses added and not deleted. */
    ghost predicate Tracking(cs: multiset<set<Lit>>)
      reads this`literals, this`garbage, this`vals, this`inconsistent
    {
      !inconsistent ==> Tracks(literals, garbage, vals, cs)
    }

    ghost predicate Valid()
      reads this
    {
      Ready() && simplified == [] && Tracking(added)
    }

    constructor (nonces: seq<nat>)
      requires |nonces| == 4
      ensures Valid() && originals == {} && added == multiset{} && !inconsistent
      ensures literals == map[] && garbage == {}
    {
      this.nonces := nonces;
      originals, added, literals, garbage, next, watches, vars := {}, multiset{}, map[], {}, 0, map[], {};
      vals, trail, nextToPropagate, inconsistent := map[], [], 0, false;
      clauses, hash, numClauses, numGarbage, sizeVars, marks := [], map[], 0, 0, 0, {};
      simplified, lastId := [], 0;
      new;
      NothingTracked(vals);
      NothingStored(originals, vars, vals, trail, watches, hash);
    }

    /** `new_clause`: two unassigned literals become the first two. */
    method WatchTwo(c: Clause) returns (d: Clause)
      requires |c| >= 2 && exists i, j :: 0 <= i < j < |c| && Val(c[i], vals) == 0 && Val(c[j], vals) == 0
      ensures multiset(d) == multiset(c) && |d| == |c| && Val(d[0], vals) == 0 && Val(d[1], vals) == 0
    {
      ghost var i, j :| 0 <= i < j < |c| && Val(c[i], vals) == 0 && Val(c[j], vals) == 0;
      d := c;
      if Val(d[0], vals) != 0 {
        var k := FirstUnassigned(d, 1, i);
        d := Exchange(d, 0, k);
      }
      if Val(d[1], vals) != 0 {
        var k := FirstUnassigned(d, 2, j);
        d := Exchange(d, 1, k);
      }
    }

    method FirstUnassigned(c: Clause, from: nat, ghost upto: nat) returns (k: nat)
      requires from <= upto < |c| && Val(c[upto], vals) == 0
      ensures from <= k <= upto && Val(c[k], vals) == 0 && forall j :: from <= j < k ==> Val(c[j], vals) != 0
    {
      k := from;
      while Val(c[k], vals) != 0
        invariant from <= k <= upto && forall j :: from <= j < k ==> Val(c[j], vals) != 0
        decreases upto - k
      {
        k := k + 1;
      }
    }

    /** `insert`: store the clause, watch it, and link it at the head of its chain. */
    method Insert()
      requires Ready() && !inconsistent && Consequence(originals, Lits(simplified)) && NoDuplicates(simplified)
      requires forall l :: l in simplified ==> Var(l) in vars
      requires exists i, j ::
        0 <= i < j < |simplified| && Val(simplified[i], vals) == 0 && Val(simplified[j], vals) == 0
      modifies this`clauses, this`hash, this`literals, this`watches, this`next, this`numClauses
      ensures Ready() && Grows(old(literals), literals, simplified) && |clauses| > 0
      ensures var h := Reduced(HashOf(nonces, lastId), |clauses|);
        h < |clauses| && clauses[h] != [] && clauses[h][0] == old(next)
      ensures old(next) in literals && Lits(literals[old(next)]) == Lits(simplified) && old(next) !in old(literals)
      ensures old(next) !in garbage
    {
      hide Watched, Stored, Trailed, Safe, TableOk, Reduced, HashOf, Follows, Consequence, Sized, Hashed;
      if numClauses == |clauses| || |clauses| == 0 {
        clauses := Enlarge(clauses, hash, Refs(literals, garbage));
      }
      var x := HashOf(nonces, lastId);
      var h := ReduceHash(x, |clauses|);
      var c := WatchTwo(simplified);
      Store(c, x, h);
    }

    /** Watch a new clause and link it into the table. */
    method Store(c: Clause, x: nat, h: nat)
      requires Ready() && !inconsistent && Consequence(originals, Lits(simplified)) && NoDuplicates(simplified)
      requires |clauses| > 0
      requires (forall l :: l in simplified ==> Var(l) in vars) && multiset(c) == multiset(simplified)
      requires |c| >= 2 && Val(c[0], vals) == 0 && Val(c[1], vals) == 0 && h == Reduced(x, |clauses|)
      modifies this`clauses, this`hash, this`literals, this`watches, this`next, this`numClauses
      ensures Ready() && Grows(old(literals), literals, simplified) && |clauses| == old(|clauses|)
      ensures h < |clauses| && clauses[h] != [] && clauses[h][0] == old(next)
      ensures old(next) in literals && Lits(literals[old(next)]) == Lits(simplified) && old(next) !in old(literals)
      ensures old(next) !in garbage
    {
      hide Watched, Stored, Trailed, Safe, TableOk, Reduced, Follows, Consequence, Grows, Sized, Hashed, Val,
           NoDuplicates, Refs;
      ghost var before, live := literals, Refs(literals, garbage);
      var r := next;
      WatchNew(c);
      HashedMore(before, hash, r, c, x);
      ClauseTable.Insert(clauses, hash, live, r, x);
      hash := hash[r := x];
      clauses := clauses[h := [r] + clauses[h]];
      numClauses := numClauses + 1;
    }

    /** A new clause and its two watches. */
    method WatchNew(c: Clause)
      requires Watching() && !inconsistent && Consequence(originals, Lits(simplified)) && NoDuplicates(simplified)
      requires (forall l :: l in simplified ==> Var(l) in vars) && multiset(c) == multiset(simplified)
      requires |c| >= 2 && Val(c[0], vals) == 0 && Val(c[1], vals) == 0
      modifies this`literals, this`watches, this`next
      ensures Watching() && next == old(next) + 1 && literals == old(literals)[old(next) := c]
      ensures Grows(old(literals), literals, simplified)
      ensures Lits(c) == Lits(simplified) && old(next) !in old(literals) && old(next) !in garbage
      ensures Refs(literals, garbage) == Refs(old(literals), garbage) + {old(next)}
      ensures old(next) !in Refs(old(literals), garbage)
    {
      hide Watched, Stored, Trailed, Safe, WithClause, Follows, Consequence, Grows, Sized, Val, NoDuplicates, Refs;
      ClauseStored(originals, literals, garbage, vars, next, vals, trail, watches, simplified, c);
      PermutedLits(c, simplified);
      literals, watches, next := literals[next := c], WithClause(watches, next, c), next + 1;
    }

    /** `add_clause`, for a clause that is implied. */
    method AddClause()
      requires Ready() && !inconsistent && Consequence(originals, Lits(simplified)) && NoDuplicates(simplified)
      requires Prepared() && Tracks(literals, garbage, vals, added)
      modifies this`clauses, this`hash, this`literals, this`garbage, this`watches, this`next, this`numClauses,
               this`numGarbage, this`vals, this`trail, this`nextToPropagate, this`inconsistent
      ensures Ready() && (inconsistent || |clauses| > 0 || exists l :: l in simplified && Val(l, vals) > 0)
      ensures Tracking(added + multiset{Lits(simplified)}) && Below(old(vals), vals)
    {
      hide Watched, Stored, Trailed, Safe, TableOk, Follows, Consequence, Grown, Sized, Hashed, Tracks, TrivialSet,
           Lits, Reduced, HashOf, Below, Reordered, Ready, Prepared;
      PreparedFacts();
      SameBelow(vals);
      AssignmentFollows();
      if 2 * numGarbage > (if |clauses| > sizeVars then |clauses| else sizeVars) {
        CollectGarbage();
      }
      ghost var before, vals0 := literals, vals;
      var unit, several := FindUnit(simplified);
      if unit == None {
        FalsifiedRefutes(originals, vals, simplified);
        BecomeInconsistent();
      } else if !several {
        UnitImplied(originals, vals, simplified, unit.value);
        AssignUnit(unit.value);
        TracksReordered(before, literals, garbage, vals0, vals, added);
        TrueTrivial(simplified, unit.value, vals);
        TracksTrivial(literals, garbage, vals, added, Lits(simplified));
      } else {
        ghost var r := next;
        Insert();
        GrownBy(before, literals, simplified, r);
        TracksStored(before, literals, garbage, vals, added, r, Lits(simplified));
      }
    }

    lemma PreparedFacts()
      requires Prepared()
      ensures forall l :: l in simplified ==> Var(l) in vars && Val(l, vals) <= 0
    {
    }

    lemma AssignmentFollows()
      requires Ready() && !inconsistent
      ensures Follows(originals, [], vals)
    {
    }

    method BecomeInconsistent()
      requires Ready() && Consequence(originals, {})
      modifies this`inconsistent
      ensures Ready() && inconsistent
    {
      hide Watched, Stored, Trailed, Safe, TableOk, Follows, Consequence, Sized, Hashed;
      inconsistent := true;
    }

    /** Assign an implied unit and propagate it. */
    method AssignUnit(unit: Lit)
      requires Ready() && !inconsistent && Val(unit, vals) == 0 && Var(unit) in vars
      requires Follows(originals, [], SetFalse(Neg(unit), vals))
      modifies this`literals, this`watches, this`vals, this`trail, this`nextToPropagate, this`inconsistent
      ensures Ready() && Val(unit, vals) > 0 && Reordered(literals, old(literals)) && Below(old(vals), vals)
    {
      hide Watched, Stored, Trailed, Safe, TableOk, Follows, Consequence, Grown, Reordered, Free, Val, Sized, Hashed;
      ghost var vals0, trail0, lists := vals, trail, watches;
      assert trail[nextToPropagate..] == [];
      SafeAssign(literals, garbage, vals, [], unit);
      NothingFalse(literals, garbage, originals, vars, next);
      GrownAll(vars, vals, trail, watches);
      Assign(unit, map[], []);
      assert trail[nextToPropagate..] == [] + [unit];
      assert Lits([]) == {};
      PropagateUnit(unit);
      TrailBelow(vars, vals0, trail0, lists, vals, trail, watches);
    }

    /** Propagate the last literal of the trail for good. */
    method PropagateUnit(unit: Lit)
      requires Engine(watches) && Follows(originals, [], vals) && nextToPropagate + 1 == |trail|
      requires trail[|trail| - 1] == unit
      requires Safe(literals, garbage, vals, trail[nextToPropagate..]) && Safe(literals, garbage, map[], [])
      requires Grown(map[], [], vals, trail) && Sized(vars, sizeVars, watches.Keys)
      requires |nonces| == 4 && marks == {} && Hashed(literals, hash, next)
      requires TableOk(clauses, hash, Refs(literals, garbage))
      requires !inconsistent
      modifies this`literals, this`watches, this`vals, this`trail, this`nextToPropagate, this`inconsistent
      ensures Ready() && Val(unit, vals) > 0 && Reordered(literals, old(literals)) && old(trail) <= trail
    {
      hide Watched, Stored, Trailed, Safe, TableOk, Follows, Consequence, Grown, Reordered, Free, Val, Sized, Hashed;
      ghost var before, lists, trail1 := literals, watches, trail;
      var ok := Propagate([], map[], []);
      assert trail[|trail1| - 1] == unit;
      ReorderedKeys(literals, before, watches, lists);
      HashedSame(literals, before, hash, next);
      assert Lits([]) == {};
      TrailTrue(vars, vals, trail, watches, unit);
      if !ok {
        inconsistent := true;
      }
    }

    /** The only literal that is not false, or the first of several. */
    method FindUnit(c: Clause) returns (unit: Option<Lit>, several: bool)
      requires forall l :: l in c ==> Val(l, vals) <= 0
      ensures unit == None ==> !several && forall l :: l in c ==> Val(l, vals) < 0
      ensures unit.Some? ==> unit.value in c && Val(unit.value, vals) == 0
      ensures unit.Some? && !several ==> forall l :: l in c && l != unit.value ==> Val(l, vals) < 0
      ensures several && NoDuplicates(c) ==>
        exists i, j :: 0 <= i < j < |c| && Val(c[i], vals) == 0 && Val(c[j], vals) == 0
    {
      unit, several := None, false;
      for k := 0 to |c|
        invariant !several
        invariant unit == None ==> forall j :: 0 <= j < k ==> Val(c[j], vals) < 0
        invariant unit.Some? ==>
          exists i ::
            && 0 <= i < k
            && c[i] == unit.value
            && Val(c[i], vals) == 0
            && forall j :: 0 <= j < k && j != i ==> Val(c[j], vals) < 0
      {
        assert c[k] in c;
        if Val(c[k], vals) < 0 {
          continue;
        }
        if unit.Some? {
          several := true;
          return;
        }
        unit := Some(c[k]);
      }
    }

    /** `collect_garbage_clauses`: satisfied clauses leave the hash table, and garbage
        clauses the watch lists. */
    method CollectGarbage()
      requires Ready() && !inconsistent && Tracks(literals, garbage, vals, added)
      modifies this`clauses, this`hash, this`literals, this`garbage, this`watches, this`numClauses, this`numGarbage
      ensures Tracks(literals, garbage, vals, added)
      ensures Ready() && garbage == {} && literals.Keys <= old(literals).Keys && watches.Keys == old(watches).Keys
      ensures forall r :: r in literals <==>
        r in old(literals) && r !in old(garbage) && !HasTrue(old(literals)[r], vals)
      ensures forall r :: r in literals ==> literals[r] == old(literals)[r]
    {
      hide Watched, Stored, Trailed, Safe, TableOk, Follows, Consequence, Grown, Sized, Hashed, HasTrue, Refs, Tracks;
      SizedLists(vars, sizeVars, watches);
      StoredFacts(originals, literals, garbage, vars, next);
      ghost var before, garbage0 := literals, garbage;
      DropSatisfied();
      MoreGarbageKeeps(originals, literals, garbage0, garbage, vars, next, vals, watches);
      FilterLists();
      KeysTrailed(vars, vals, trail, old(watches), watches);
      FreeAll();
      TracksCollected(before, garbage0, literals, garbage, vals, added);
    }

    /** Garbage clauses that are in no list are freed. */
    method FreeAll()
      requires Ready() && !inconsistent && forall l, r :: l in watches && r in garbage ==> !Has(watches[l], r)
      modifies this`literals, this`garbage, this`numGarbage
      ensures Ready() && garbage == {} && literals == old(literals) - old(garbage)
    {
      hide Watched, Stored, Trailed, Safe, TableOk, Follows, Consequence, Grown, Sized, Hashed, HasTrue, Refs;
      FreeGarbage(literals, garbage, watches);
      FreeStored(originals, literals, garbage, vars, next, vals);
      FreeLive(literals, garbage);
      HashedFewer(literals, hash, next, garbage);
      literals := literals - garbage;
      garbage := {};
      numGarbage := 0;
    }

    /** Satisfied clauses become garbage. */
    method DropSatisfied()
      requires TableOk(clauses, hash, Refs(literals, garbage)) && garbage <= literals.Keys
      modifies this`clauses, this`garbage, this`numClauses, this`numGarbage
      ensures TableOk(clauses, hash, Refs(literals, garbage)) && garbage <= literals.Keys && old(garbage) <= garbage
      ensures forall r :: r in literals && r !in old(garbage) ==> (r in garbage <==> HasTrue(literals[r], vals))
    {
      hide TableOk, Reduced, HasTrue;
      var i := 0;
      while i < |clauses|
        invariant 0 <= i <= |clauses| == |old(clauses)|
        invariant TableOk(clauses, hash, Refs(literals, garbage)) && garbage <= literals.Keys && old(garbage) <= garbage
        invariant forall r :: r in garbage && r !in old(garbage) ==> r in literals && HasTrue(literals[r], vals)
        invariant NoneTrue(clauses, i, literals, vals)
      {
        var k := 0;
        while k < |clauses[i]|
          invariant i < |clauses| == |old(clauses)| && 0 <= k <= |clauses[i]|
          invariant TableOk(clauses, hash, Refs(literals, garbage)) && garbage <= literals.Keys
          invariant old(garbage) <= garbage
          invariant forall r :: r in garbage && r !in old(garbage) ==> r in literals && HasTrue(literals[r], vals)
          invariant NoneTrue(clauses, i, literals, vals)
          invariant forall j :: 0 <= j < k ==> clauses[i][j] in literals && !HasTrue(literals[clauses[i][j]], vals)
          decreases |clauses[i]| - k
        {
          var c := clauses[i][k];
          ChainFacts(clauses, hash, Refs(literals, garbage), i);
          assert c in clauses[i];
          var satisfied := ClauseSatisfied(literals[c]);
          if satisfied {
            Remove(clauses, hash, Refs(literals, garbage), i, k);
            assert Refs(literals, garbage + {c}) == Refs(literals, garbage) - {c};
            clauses := clauses[i := clauses[i][..k] + clauses[i][k+1..]];
            garbage := garbage + {c};
            numGarbage, numClauses := numGarbage + 1, numClauses - 1;
          } else {
            k := k + 1;
          }
        }
        i := i + 1;
      }
      AllInChains(clauses, hash, Refs(literals, garbage));
      forall r | r in literals && r !in garbage
        ensures !HasTrue(literals[r], vals)
      {
        assert r in Refs(literals, garbage);
        var h :| 0 <= h < |clauses| && r in clauses[h];
      }
    }

    method ClauseSatisfied(c: Clause) returns (res: bool)
      ensures res <==> HasTrue(c, vals)
    {
      for i := 0 to |c|
        invariant forall j :: 0 <= j < i ==> Val(c[j], vals) <= 0
      {
        if Val(c[i], vals) > 0 {
          assert c[i] in c;
          return true;
        }
      }
      return false;
    }

    /** Watches of garbage clauses are dropped from all lists. */
    method FilterLists()
      requires Watched(literals, garbage, watches) && forall l :: l in watches ==> Var(l) < sizeVars
      modifies this`watches
      ensures Watched(literals, garbage, watches) && watches.Keys == old(watches).Keys
      ensures forall l, r :: l in watches && r in garbage ==> !Has(watches[l], r)
    {
      hide Watched, Has;
      var v := 1 - sizeVars;
      while v < sizeVars
        invariant Watched(literals, garbage, watches) && watches.Keys == old(watches).Keys
        invariant forall l, r :: l in watches && l < v && r in garbage ==> !Has(watches[l], r)
      {
        if v != 0 {
          var lit: Lit := v;
          if lit in watches {
            var kept := FilterList(lit);
            Relisted(literals, garbage, watches, lit, kept);
            watches := watches[lit := kept];
          }
        }
        v := v + 1;
      }
      forall l | l in watches
        ensures l < sizeVars
      {
        assert l in old(watches);
      }
    }

    method FilterList(lit: Lit) returns (kept: seq<Watch>)
      requires Watched(literals, garbage, watches) && lit in watches
      ensures ListOf(lit, kept, literals)
      ensures forall r :: Has(kept, r) <==> Has(watches[lit], r) && r !in garbage
    {
      hide Has, ListOf;
      var ws := watches[lit];
      kept := [];
      NothingFiltered(ws, garbage, lit, literals);
      for i := 0 to |ws|
        invariant ListOf(lit, ws, literals) && ListOf(lit, kept, literals)
        invariant forall r :: Has(kept, r) <==> Has(ws[..i], r) && r !in garbage
      {
        Filtered(ws, garbage, lit, literals, kept, i);
        if ws[i].clause !in garbage {
          kept := kept + [ws[i]];
        }
      }
      assert ws[..|ws|] == ws;
    }

    /** Between operations the trail is a fixpoint of unit propagation over all
        clauses added and not deleted, and follows from the originals. */
    lemma TrailIsFixpoint()
      requires Valid() && !inconsistent
      ensures (forall c :: c in added ==> Settled(c, vals)) && Fixpoint(literals, garbage, vals)
      ensures forall m: Model :: Models(m, originals) ==> Agrees(m, vals)
    {
      hide Tracks, Settled, Fixpoint;
      SafeIsFixpoint(literals, garbage, vals);
      ReachedSettles(vals);
      forall m: Model | Models(m, originals)
        ensures Agrees(m, vals)
      {
        assert !SatClause([], m);
      }
    }

    /** A fixpoint over the stored clauses is one over the clauses added. */
    lemma ReachedSettles(reached: map<int, bool>)
      requires Watching() && Tracks(literals, garbage, vals, added) && Fixpoint(literals, garbage, reached)
      requires Below(vals, reached)
      ensures forall c :: c in added ==> Settled(c, reached)
    {
      hide Stored, Trailed, Safe, Follows, Consequence, Sized, Tracks, Settled, Fixpoint, Below, Has;
      forall r | r in literals && r !in garbage
        ensures NoDuplicates(literals[r])
      {
        assert WatchedClause(r, literals[r], watches);
      }
      FixpointOfAdded(literals, garbage, vals, reached, added);
    }

    /** An inconsistent checker has seen unsatisfiable originals. */
    lemma InconsistentIsUnsatisfiable()
      requires Valid() && inconsistent
      ensures !Satisfiable(originals)
    {
      hide Watched, Stored, Trailed, Safe, TableOk, Hashed, Sized;
      forall m: Model
        ensures !Models(m, originals)
      {
        assert !SatLits({}, m);
      }
    }

    // --------------------------------------------------------------- operations

    /** `enlarge_vars`: twice as many variables until there is room. */
    method EnlargeVars(idx: int)
      requires Ready() && idx >= sizeVars
      modifies this`sizeVars
      ensures Ready() && idx < sizeVars
    {
      hide Watched, Stored, Trailed, Safe, TableOk, Follows, Consequence, Hashed;
      var newSizeVars := if sizeVars > 0 then 2 * sizeVars else 2;
      while idx >= newSizeVars
        invariant newSizeVars > sizeVars && newSizeVars > 0
        decreases idx - newSizeVars
      {
        newSizeVars := 2 * newSizeVars;
      }
      sizeVars := newSizeVars;
    }

    /** `import_clause`: make room for all variables of the clause. */
    method ImportClause(c: Clause)
      requires Valid()
      modifies this`simplified, this`sizeVars, this`watches, this`vars
      ensures Ready() && simplified == c && old(vars) <= vars && forall l :: l in c ==> Var(l) in vars
    {
      hide Watched, Stored, Trailed, Safe, TableOk, Follows, Consequence, Hashed, Sized;
      for k := 0 to |c|
        invariant Ready() && simplified == c[..k] && old(vars) <= vars && forall j :: 0 <= j < k ==> Var(c[j]) in vars
      {
        assert c[..k+1] == c[..k] + [c[k]];
        if Var(c[k]) >= sizeVars {
          EnlargeVars(Var(c[k]));
        }
        ImportVariable(c[k]);
        simplified := simplified + [c[k]];
      }
      assert c[..|c|] == c;
    }

    /** The variable gets empty watch lists if it is new. */
    method ImportVariable(l: Lit)
      requires Ready() && Var(l) < sizeVars
      modifies this`watches, this`vars
      ensures Ready() && vars == old(vars) + {Var(l)}
    {
      hide Watched, Safe, TableOk, Follows, Consequence, Hashed, Stored, Trailed, Sized;
      ghost var lists := watches;
      if l !in watches {
        MoreLists(literals, garbage, watches, l);
        watches := watches[l := []];
      }
      if Neg(l) !in watches {
        MoreLists(literals, garbage, watches, Neg(l));
        watches := watches[Neg(l) := []];
      }
      MoreVariables(originals, literals, garbage, vars, next, vals, trail, lists, watches, sizeVars, l);
      vars := vars + {Var(l)};
    }

    /** Import and simplify a clause. */
    method Prepare(id: nat, c: Clause) returns (tautological: bool)
      requires Valid()
      modifies this`simplified, this`sizeVars, this`watches, this`vars, this`lastId
      ensures Ready() && lastId == id && (tautological <==> Trivial(c, vals))
      ensures !tautological ==> Lits(simplified) == Lits(c) && NoDuplicates(simplified)
      ensures !tautological ==> Prepared()
    {
      hide Watched, Stored, Trailed, Safe, TableOk, Follows, Consequence, Hashed, Sized, Trivial;
      ImportClause(c);
      lastId := id;
      var kept: Clause;
      tautological, kept := Tautological(simplified, vals);
      simplified := kept;
      if !tautological {
        KeptVars(c, kept, vars);
      }
    }

    /** `add_original_clause`. */
    method AddOriginalClause(id: nat, c: Clause)
      requires Valid()
      modifies this
      ensures Valid() && originals == old(originals) + {Lits(c)} && added == old(added) + multiset{Lits(c)}
      ensures old(inconsistent) ==> inconsistent
    {
      hide Watched, Stored, Trailed, Safe, TableOk, Follows, Consequence, Hashed, Sized, Trivial, NoDuplicates, Refs,
           Tracks, TrivialSet, Below, Prepared;
      MoreOriginals(originals, Lits(c), literals, garbage, vars, next, vals, inconsistent);
      originals := originals + {Lits(c)};
      if inconsistent {
        added := added + multiset{Lits(c)};
        return;
      }
      var tautological := Prepare(id, c);
      if !tautological {
        OriginalImplied(originals, c, simplified);
      }
      Record(c, tautological);
    }

    /** Add a clause that is implied unless it is trivial. */
    method Record(c: Clause, tautological: bool)
      requires Ready() && !inconsistent && Tracks(literals, garbage, vals, added)
      requires tautological <==> Trivial(c, vals)
      requires !tautological ==> Lits(simplified) == Lits(c) && NoDuplicates(simplified)
      requires !tautological ==> Consequence(originals, Lits(simplified))
      requires !tautological ==> Prepared()
      modifies this
      ensures Valid() && originals == old(originals) && added == old(added) + multiset{Lits(c)}
      ensures |clauses| > 0 || inconsistent || Trivial(c, vals)
    {
      hide Watched, Stored, Trailed, Safe, TableOk, Follows, Consequence, Hashed, Sized, Trivial, NoDuplicates, Refs,
           Tracks, TrivialSet, Below, Lits, Prepared;
      if !tautological {
        AddClause();
        TrueIsTrivial(c, simplified, vals);
      } else {
        TrivialLits(c, vals);
        TracksTrivial(literals, garbage, vals, added, Lits(c));
      }
      simplified := [];
      added := added + multiset{Lits(c)};
    }

    /** `add_derived_clause`: an accepted clause is implied by the originals added so
        far.  A clause that is refused is falsified by an assignment, extending the
        current one, that is a fixpoint over the clauses added and not deleted. */
    method AddDerivedClause(id: nat, c: Clause) returns (accepted: bool, ghost reached: map<int, bool>)
      requires Valid()
      modifies this
      ensures originals == old(originals)
      ensures accepted ==>
        && Valid() && Consequence(originals, Lits(c)) && added == old(added) + multiset{Lits(c)}
        && (|clauses| > 0 || inconsistent || Trivial(c, vals))
      ensures !accepted ==>
        && added == old(added) && Below(old(vals), reached)
        && (forall d :: d in added ==> Settled(d, reached)) && forall l :: l in c ==> Val(l, reached) < 0
    {
      hide Watched, Stored, Trailed, Safe, TableOk, Follows, Consequence, Hashed, Sized, Trivial, Fixpoint,
           NoDuplicates, Refs, Tracks, Below, Settled, Lits, Prepared;
      accepted, reached := true, vals;
      if inconsistent {
        FromFalse(originals, Lits(c));
        added := added + multiset{Lits(c)};
        return;
      }
      var tautological := Prepare(id, c);
      if tautological {
        TrivialImplied(originals, c, vals);
      } else {
        accepted, reached := CheckSimplified();
        SameLits(simplified, c);
        if !accepted {
          return;
        }
      }
      Record(c, tautological);
    }

    /** `check`, which reorders literals and watches only. */
    method CheckSimplified() returns (res: bool, ghost reached: map<int, bool>)
      requires Ready() && !inconsistent && NoDuplicates(simplified) && Tracks(literals, garbage, vals, added)
      requires Prepared()
      modifies this`literals, this`watches, this`vals, this`trail, this`nextToPropagate
      ensures Ready() && vals == old(vals) && Tracks(literals, garbage, vals, added)
      ensures res ==> Consequence(originals, Lits(simplified))
      ensures !res ==>
        && Below(vals, reached)
        && (forall d :: d in added ==> Settled(d, reached))
        && forall l :: l in simplified ==> Val(l, reached) < 0
    {
      hide Watched, Stored, Trailed, Safe, TableOk, Follows, Consequence, Hashed, Sized, Fixpoint, Reordered, Refs,
           Tracks, Settled, Below;
      ghost var before, lists := literals, watches;
      res, reached := Check();
      ReorderedKeys(literals, before, watches, lists);
      HashedSame(literals, before, hash, next);
      SameRefs(literals, before, garbage);
      SizedSame(vars, sizeVars, lists, watches);
      SameBelow(vals);
      TracksReordered(before, literals, garbage, vals, vals, added);
      if !res {
        ReachedSettles(reached);
      }
    }

    /** `find`: the position in its chain of a clause with the hash of `lastId` and the
        literals of the simplified clause. */
    method Find() returns (h: nat, position: Option<nat>)
      requires Ready() && |clauses| > 0 && NoDuplicates(simplified)
      modifies this`marks
      ensures h < |clauses| && marks == {}
      ensures position.Some? ==> position.value < |clauses[h]| && Same(clauses[h][position.value])
      ensures position == None ==> forall r :: r in Refs(literals, garbage) ==> !Same(r)
    {
      hide Watched, Stored, Trailed, Safe, TableOk, Follows, Consequence, Hashed, Sized, HashOf, Reduced;
      var x := HashOf(nonces, lastId);
      h := ReduceHash(x, |clauses|);
      position := None;
      marks := Marks(simplified);
      ChainFacts(clauses, hash, Refs(literals, garbage), h);
      var k := 0;
      while k < |clauses[h]|
        invariant 0 <= k <= |clauses[h]| && position == None && marks == Lits(simplified)
        invariant forall j :: 0 <= j < k ==> !Same(clauses[h][j])
      {
        var c := clauses[h][k];
        assert c in clauses[h] && c in Refs(literals, garbage);
        if hash[c] == x && |literals[c]| == |simplified| {
          var found := AllMarked(literals[c]);
          SameClause(c);
          if found {
            position := Some(k);
            break;
          }
        }
        k := k + 1;
      }
      marks := {};
      if position == None {
        NotFound(x, h);
      }
    }

    method AllMarked(c: Clause) returns (found: bool)
      ensures found <==> Lits(c) <= marks
    {
      for i := 0 to |c|
        invariant forall j :: 0 <= j < i ==> c[j] in marks
      {
        if c[i] !in marks {
          assert c[i] in Lits(c);
          return false;
        }
      }
      return true;
    }

    /** Clauses of the same size whose literals are all marked have the same literals. */
    lemma SameClause(c: nat)
      requires Watching() && NoDuplicates(simplified) && c in Refs(literals, garbage) && |literals[c]| == |simplified|
      ensures Lits(literals[c]) <= Lits(simplified) <==> Lits(literals[c]) == Lits(simplified)
    {
      hide Stored, Trailed, Safe, TableOk, Follows, Consequence, Hashed, Sized, Has;
      assert WatchedClause(c, literals[c], watches);
      SizeOf(literals[c]);
      SizeOf(simplified);
      if Lits(literals[c]) <= Lits(simplified) {
        SubsetOfSize(Lits(literals[c]), Lits(simplified));
      }
    }

    lemma NotFound(x: nat, h: nat)
      requires TableOk(clauses, hash, Refs(literals, garbage)) && |nonces| == 4 && x == HashOf(nonces, lastId)
      requires |clauses| > 0 && h == Reduced(x, |clauses|) && forall j :: 0 <= j < |clauses[h]| ==> !Same(clauses[h][j])
      ensures forall r :: r in Refs(literals, garbage) ==> !Same(r)
    {
      hide Reduced, HashOf;
      forall r | r in Refs(literals, garbage)
        ensures !Same(r)
      {
        assert InChain(clauses, hash, r);
      }
    }

    /** `delete_clause`: a stored clause with this identifier and these literals becomes
        garbage; it is an error if there is none. */
    method DeleteClause(id: nat, c: Clause) returns (found: bool)
      requires Valid() && (|clauses| > 0 || inconsistent || Trivial(c, vals))
      modifies this
      ensures originals == old(originals) && vals == old(vals) && inconsistent == old(inconsistent)
      ensures found ==> Valid() && added == old(added) - multiset{Lits(c)}
      ensures found && !inconsistent && !Trivial(c, vals) ==>
        Deleted(old(literals), old(garbage), garbage, hash, HashOf(nonces, id), c)
      ensures found && (inconsistent || Trivial(c, vals)) ==> garbage == old(garbage)
      ensures !found ==> !Known(old(literals), old(garbage), old(hash), HashOf(nonces, id), c)
    {
      hide Watched, Stored, Trailed, Safe, TableOk, Follows, Consequence, Hashed, Sized, Trivial, HashOf, Known,
           Deleted, NoDuplicates, Refs, Tracks, TrivialSet, Ready, Prepared, Valid, Lits;
      ValidFacts();
      found := true;
      if inconsistent {
        Forget(c);
        return;
      }
      found := DeleteKnown(id, c);
      if found {
        Forget(c);
      }
    }

    /** A clause is looked up and becomes garbage, unless it is trivial. */
    method DeleteKnown(id: nat, c: Clause) returns (found: bool)
      requires Valid() && !inconsistent && (|clauses| > 0 || Trivial(c, vals))
      modifies this
      ensures Ready() && originals == old(originals) && vals == old(vals) && !inconsistent && added == old(added)
      ensures found ==> Tracks(literals, garbage, vals, added - multiset{Lits(c)})
      ensures found && !Trivial(c, vals) ==>
        Deleted(old(literals), old(garbage), garbage, hash, HashOf(nonces, id), c)
      ensures found && Trivial(c, vals) ==> garbage == old(garbage)
      ensures !found ==> !Known(old(literals), old(garbage), old(hash), HashOf(nonces, id), c)
    {
      hide Watched, Stored, Trailed, Safe, TableOk, Follows, Consequence, Hashed, Sized, Trivial, HashOf, Known,
           Deleted, NoDuplicates, Refs, Tracks, TrivialSet, Ready, Prepared, Valid, Lits;
      ValidFacts();
      found := true;
      var tautological := Prepare(id, c);
      if tautological {
        TrivialDeleted(c);
      } else {
        found := RemoveFound(c);
      }
    }

    lemma ValidFacts()
      requires Valid()
      ensures Ready() && (!inconsistent ==> Tracks(literals, garbage, vals, added))
    {
    }

    lemma TrivialDeleted(c: Clause)
      requires Tracks(literals, garbage, vals, added) && Trivial(c, vals)
      ensures Tracks(literals, garbage, vals, added - multiset{Lits(c)})
    {
      TrivialLits(c, vals);
      TracksTrivial(literals, garbage, vals, added, Lits(c));
    }

    /** The deletion is over. */
    method Forget(ghost c: Clause)
      requires Ready() && (!inconsistent ==> Tracks(literals, garbage, vals, added - multiset{Lits(c)}))
      modifies this`simplified, this`added
      ensures Valid() && added == old(added) - multiset{Lits(c)}
    {
      hide Watched, Stored, Trailed, Safe, TableOk, Follows, Consequence, Hashed, Sized, Tracks;
      simplified := [];
      added := added - multiset{Lits(c)};
    }

    /** Find the simplified clause and delete it. */
    method RemoveFound(ghost c: Clause) returns (found: bool)
      requires Ready() && !inconsistent && |clauses| > 0 && NoDuplicates(simplified) && Lits(simplified) == Lits(c)
      requires Tracks(literals, garbage, vals, added)
      modifies this`marks, this`numGarbage, this`numClauses, this`clauses, this`garbage
      ensures Ready()
      ensures found ==> Tracks(literals, garbage, vals, added - multiset{Lits(c)})
      ensures found ==> Deleted(literals, old(garbage), garbage, hash, HashOf(nonces, lastId), c)
      ensures !found ==> garbage == old(garbage) && !Known(literals, garbage, hash, HashOf(nonces, lastId), c)
    {
      hide Watched, Stored, Trailed, Safe, TableOk, Follows, Consequence, Hashed, Sized, HashOf, Known, Deleted,
           NoDuplicates, Refs, Tracks, Lits;
      ghost var garbage0 := garbage;
      var h, position := Find();
      if position == None {
        NotKnown(c);
        return false;
      }
      var k := position.value;
      RemoveFacts(h, k);
      DeletedIs(clauses[h][k], c);
      Unlink(h, k);
      DeletedTracks(literals, garbage0, garbage, hash, HashOf(nonces, lastId), c, vals, added);
      found := true;
    }

    /** The clause at position `k` of chain `h` leaves the table for the garbage. */
    method Unlink(h: nat, k: nat)
      requires Ready() && h < |clauses| && k < |clauses[h]|
      modifies this`numGarbage, this`numClauses, this`clauses, this`garbage
      ensures Ready() && garbage == old(garbage) + {old(clauses)[h][k]}
    {
      hide Watched, Stored, Trailed, Safe, TableOk, Follows, Consequence, Hashed, Sized, Refs;
      RemoveFacts(h, k);
      var d := clauses[h][k];
      numGarbage, numClauses := numGarbage + 1, numClauses - 1;
      clauses := clauses[h := clauses[h][..k] + clauses[h][k+1..]];
      garbage := garbage + {d};
    }

    lemma NotKnown(c: Clause)
      requires Ready() && Lits(simplified) == Lits(c) && forall r :: r in Refs(literals, garbage) ==> !Same(r)
      requires NoDuplicates(simplified)
      ensures !Known(literals, garbage, hash, HashOf(nonces, lastId), c)
    {
      hide Stored, Trailed, Safe, TableOk, Follows, Consequence, Sized, Has, HashOf;
      forall r | r in literals && r !in garbage && r in hash && hash[r] == HashOf(nonces, lastId)
        ensures Lits(literals[r]) != Lits(c)
      {
        assert r in Refs(literals, garbage) && WatchedClause(r, literals[r], watches);
        SizeOf(literals[r]);
        SizeOf(simplified);
      }
    }

    lemma DeletedIs(d: nat, c: Clause)
      requires Ready() && Same(d) && Lits(simplified) == Lits(c) && d in Refs(literals, garbage)
      ensures Deleted(literals, garbage, garbage + {d}, hash, HashOf(nonces, lastId), c)
    {
      hide Watched, Stored, Trailed, Safe, TableOk, Follows, Consequence, Sized, HashOf;
    }

    /** What deleting the clause at position `k` of chain `h` keeps. */
    lemma RemoveFacts(h: nat, k: nat)
      requires Ready() && h < |clauses| && k < |clauses[h]|
      ensures var d := clauses[h][k];
              && d in Refs(literals, garbage)
              && TableOk(clauses[h := clauses[h][..k] + clauses[h][k+1..]], hash, Refs(literals, garbage + {d}))
              && Watched(literals, garbage + {d}, watches) && Stored(originals, literals, garbage + {d}, vars, next)
              && (!inconsistent ==> Safe(literals, garbage + {d}, vals, []))
    {
      hide Watched, Trailed, Safe, TableOk, Follows, Consequence, Hashed, Sized, Has;
      var d := clauses[h][k];
      Remove(clauses, hash, Refs(literals, garbage), h, k);
      assert Refs(literals, garbage + {d}) == Refs(literals, garbage) - {d};
      DeleteKeeps(originals, literals, garbage, d, vars, next, vals, watches, inconsistent);
    }

    /** `add_assumption_clause`: the clause is checked, stored and deleted again. */
    method AddAssumptionClause(id: nat, c: Clause) returns (accepted: bool, ghost reached: map<int, bool>)
      requires Valid()
      modifies this
      ensures originals == old(originals)
      ensures accepted ==> Valid() && Consequence(originals, Lits(c)) && added == old(added)
    {
      hide Watched, Stored, Trailed, Safe, TableOk, Follows, Consequence, Hashed, Sized, Trivial, HashOf, Known;
      accepted, reached := AddDerivedClause(id, c);
      if accepted {
        accepted := DeleteClause(id, c);
      }
    }

    /** The clause has the hash and the literals that are searched. */
    ghost predicate Same(r: nat)
      reads this`literals, this`hash, this`lastId, this`simplified
    {
      && |nonces| == 4
      && r in literals
      && r in hash
      && hash[r] == HashOf(nonces, lastId)
      && Lits(literals[r]) == Lits(simplified)
      && |literals[r]| == |simplified|
    }

    /** All literals of the clause but `other` are false. */
    method Imply(w: Watch, other: Lit, lit: Lit, ghost a: seq<Watch>, ghost b: seq<Watch>, ghost c: Clause,
          ghost vals0: map<int, bool>, ghost trail0: seq<Lit>)
      requires lit in watches && Engine(watches[lit := a + [w] + b]) && Follows(originals, c, vals)
      requires Val(lit, vals) < 0 && nextToPropagate <= |trail|
      requires w.clause in literals && other in literals[w.clause] && Val(other, vals) == 0 && Var(other) in vars
      requires Consequence(originals, Lits(literals[w.clause]))
      requires forall l :: l in literals[w.clause] && l != other ==> Val(l, vals) < 0
      requires SafeBut(literals, garbage, vals, trail[nextToPropagate..], lit, [w] + b)
      requires Grown(vals0, trail0, vals, trail)
      modifies this`vals, this`trail
      ensures old(trail) <= trail && Left() == old(Left())
      ensures Engine(watches[lit := a + [w] + b]) && Follows(originals, c, vals) && Val(lit, vals) < 0
      ensures SafeBut(literals, garbage, vals, trail[nextToPropagate..], lit, b) && Grown(vals0, trail0, vals, trail)
    {
      hide Watched, Stored, Follows, SafeBut, Grown, Consequence, Free, Trailed;
      UnitFollows(originals, c, vals, literals[w.clause], other);
      SafeButAssign(literals, garbage, vals, trail[nextToPropagate..], lit, [w] + b, other);
      HasTrueLater(literals[w.clause], vals, other);
      SameTrailed(vars, vals, trail, watches, lit, a + [w] + b, watches[lit]);
      Assign(other, vals0, trail0);
      TrailedWith(vars, vals, trail, watches, lit, a + [w] + b);
      assert trail[nextToPropagate..] == old(trail)[nextToPropagate..] + [other];
      Visited(literals, garbage, vals, trail[nextToPropagate..], lit, w, b);
    }
  }

  lemma PermutedLits(c: Clause, d: Clause)
    requires multiset(c) == multiset(d)
    ensures Lits(c) == Lits(d)
  {
    forall l
      ensures l in Lits(c) <==> l in Lits(d)
    {
      assert l in multiset(c) <==> l in multiset(d);
    }
  }

  lemma SameBelow(vals: map<int, bool>)
    ensures Below(vals, vals)
  {
  }

  /** A longer trail only adds values. */
  lemma TrailBelow(vars: set<int>, vals0: map<int, bool>, trail0: seq<Lit>, watches0: WatchLists,
        vals: map<int, bool>, trail: seq<Lit>, watches: WatchLists)
    requires Trailed(vars, vals0, trail0, watches0) && Trailed(vars, vals, trail, watches) && trail0 <= trail
    ensures Below(vals0, vals)
  {
    forall v | v in vals0
      ensures v in vals && vals[v] == vals0[v]
    {
      assert trail0[0..] == trail0;
      var k :| k in trail0 && Var(k) == v;
      assert Val(k, vals0) > 0 && k in trail && Val(k, vals) > 0;
    }
  }

  lemma TrueTrivial(c: Clause, l: Lit, vals: map<int, bool>)
    requires l in c && Val(l, vals) > 0
    ensures TrivialSet(Lits(c), vals)
  {
    assert l in Lits(c);
  }

  lemma GrownBy(before: map<nat, Clause>, now: map<nat, Clause>, c: Clause, r: nat)
    requires Grows(before, now, c) && r in now && r !in before
    ensures now.Keys == before.Keys + {r} && forall q :: q in before ==> now[q] == before[q]
  {
    assert forall q :: q in now <==> q in now.Keys;
  }

  lemma DeletedTracks(literals: map<nat, Clause>, garbage0: set<nat>, garbage: set<nat>, hash: map<nat, nat>, x: nat,
        c: Clause, vals: map<int, bool>, added: multiset<set<Lit>>)
    requires Deleted(literals, garbage0, garbage, hash, x, c) && Tracks(literals, garbage0, vals, added)
    ensures Tracks(literals, garbage, vals, added - multiset{Lits(c)})
  {
    hide Tracks, Lits;
    var r :| r in literals && r !in garbage0 && r in hash && hash[r] == x && Lits(literals[r]) == Lits(c)
      && garbage == garbage0 + {r};
    TracksDeleted(literals, garbage0, vals, added, r);
  }

  lemma OneLess(vars: set<int>, vals: map<int, bool>, l: Lit)
    requires Val(l, vals) == 0 && Var(l) in vars
    ensures Free(vars, SetFalse(Neg(l), vals)) + 1 == Free(vars, vals)
  {
    hide SetFalse, Val;
    KeysAssigned(vals, l);
    FewerKeys(vars, vals.Keys, Var(l));
  }

  lemma KeysAssigned(vals: map<int, bool>, l: Lit)
    requires Val(l, vals) == 0
    ensures SetFalse(Neg(l), vals).Keys == vals.Keys + {Var(l)} && Var(l) !in vals.Keys
  {
  }

  lemma FewerKeys(vars: set<int>, keys: set<int>, v: int)
    requires v in vars && v !in keys
    ensures |vars - (keys + {v})| + 1 == |vars - keys|
  {
    assert vars - (keys + {v}) == (vars - keys) - {v};
    WithoutOne(vars - keys, v);
  }

  lemma WithoutOne(s: set<int>, v: int)
    requires v in s
    ensures |s - {v}| + 1 == |s|
  {
  }

  lemma GrownLonger(vals0: map<int, bool>, trail0: seq<Lit>, vals: map<int, bool>, trail: seq<Lit>)
    requires Grown(vals0, trail0, vals, trail)
    ensures |trail| >= |trail0|
  {
  }

  lemma GrownBelow(vals0: map<int, bool>, trail0: seq<Lit>, vals: map<int, bool>, trail: seq<Lit>)
    requires Grown(vals0, trail0, vals, trail)
    ensures Below(vals0, vals)
  {
  }

  lemma TrailedWith(vars: set<int>, vals: map<int, bool>, trail: seq<Lit>, watches: WatchLists, lit: Lit, x: seq<Watch>)
    requires Trailed(vars, vals, trail, watches)
    ensures Trailed(vars, vals, trail, watches[lit := x])
  {
  }

  lemma HasTrueIn(c: Clause, l: Lit, vals: map<int, bool>)
    requires l in c && Val(l, vals) > 0
    ensures HasTrue(c, vals)
  {
  }

  /** The watched clause is stored, and a binary one consists of the two literals. */
  lemma WatchedClauseOf(orig: Formula, literals: map<nat, Clause>, garbage: set<nat>, watches: WatchLists,
        vars: set<int>, next: nat,
      lit: Lit, a: seq<Watch>, w: Watch, b: seq<Watch>)
    requires Watched(literals, garbage, watches[lit := a + [w] + b]) && Stored(orig, literals, garbage, vars, next)
    ensures w.clause in literals && w.blit in literals[w.clause] && |literals[w.clause]| == w.size >= 2
    ensures Consequence(orig, Lits(literals[w.clause]))
    ensures lit == literals[w.clause][0] || lit == literals[w.clause][1]
    ensures w.size == 2 ==> forall l :: l in literals[w.clause] ==> l == lit || l == w.blit
    ensures forall l :: l in literals[w.clause] ==> Var(l) in vars
    ensures w.size == 2 ==> w.blit != lit || literals[w.clause][0] == literals[w.clause][1]
  {
    var now := watches[lit := a + [w] + b];
    assert (a + [w] + b)[|a|] == w;
    assert ListOf(lit, now[lit], literals);
    assert WatchOf(now[lit][|a|], lit, literals);
    forall l | l in literals[w.clause]
      ensures Var(l) in vars
    {
      assert Var(l) in ClauseVars(literals[w.clause]);
    }
  }

  lemma SameTrailed(vars: set<int>, vals: map<int, bool>, trail: seq<Lit>, watches: WatchLists, lit: Lit, x: seq<Watch>,
        y: seq<Watch>)
    requires Trailed(vars, vals, trail, watches[lit := x]) && lit in watches
    ensures Trailed(vars, vals, trail, watches[lit := y]) && Trailed(vars, vals, trail, watches)
  {
  }

  lemma KeysTrailed(vars: set<int>, vals: map<int, bool>, trail: seq<Lit>, before: WatchLists, now: WatchLists)
    requires Trailed(vars, vals, trail, before) && now.Keys == before.Keys
    ensures Trailed(vars, vals, trail, now)
  {
    forall l: Lit | Var(l) in vars
      ensures l in now
    {
      assert l in before.Keys;
    }
  }

  lemma SecondReorders(literals: map<nat, Clause>, r: nat, lit: Lit, other: Lit)
    requires r in literals && |literals[r]| > 2
    requires var c := literals[r]; (lit == c[0] && other == c[1]) || (lit == c[1] && other == c[0])
    ensures Reordered(literals[r := SecondWatch(literals[r], lit)], literals)
    ensures var d := SecondWatch(literals[r], lit); d[0] == other && d[1] == lit && |d| > 2
  {
  }

  lemma ExchangeReorders(literals: map<nat, Clause>, r: nat, k: nat)
    requires r in literals && 1 < k < |literals[r]|
    ensures Reordered(literals[r := Exchange(literals[r], 1, k)], literals)
  {
  }

  lemma GrownNothing(vals0: map<int, bool>, trail0: seq<Lit>, vals: map<int, bool>, trail: seq<Lit>)
    requires Grown(vals0, trail0, vals, trail) && |trail| == |trail0|
    ensures vals == vals0 && trail == trail0
  {
    assert trail[|trail0|..] == [];
    forall v
      ensures v in vals.Keys <==> v in vals0.Keys
    {
      assert v in vals0 ==> v in vals;
    }
    forall v | v in vals.Keys
      ensures vals[v] == vals0[v]
    {
      assert v in vals0;
    }
  }

  /** Literals stay false while the trail grows. */
  lemma FalseStays(vars: set<int>, vals1: map<int, bool>, trail1: seq<Lit>, watches1: WatchLists, vals: map<int, bool>,
        trail: seq<Lit>, watches: WatchLists)
    requires Trailed(vars, vals1, trail1, watches1) && Trailed(vars, vals, trail, watches) && trail1 <= trail
    ensures forall l :: Val(l, vals1) < 0 ==> Val(l, vals) < 0
  {
    forall l | Val(l, vals1) < 0
      ensures Val(l, vals) < 0
    {
      assert trail1[0..] == trail1;
      var k :| k in trail1 && Var(k) == Var(l);
      assert Val(k, vals1) > 0 && k in trail && Val(k, vals) > 0;
    }
  }

  lemma FromFalse(orig: Formula, c: set<Lit>)
    requires Consequence(orig, {})
    ensures Consequence(orig, c)
  {
    forall m: Model
      ensures !Models(m, orig)
    {
      assert !SatLits({}, m);
    }
  }

  /** Falsifying one literal of the clause does not touch the others. */
  lemma OthersUnassigned(c: Clause, k: nat, vals: map<int, bool>)
    requires k < |c| && NoDuplicates(c) && Neg(c[k]) !in c && Val(c[k], vals) == 0
    ensures var now := SetFalse(c[k], vals);
            Val(c[k], now) < 0 && forall j :: 0 <= j < |c| && j != k ==> Val(c[j], now) == Val(c[j], vals)
  {
    forall j | 0 <= j < |c| && j != k
      ensures Var(c[j]) != Var(c[k])
    {
      assert c[j] in c;
    }
  }

  /** One clause more, `c` up to the order of its literals. */
  ghost predicate Grows(before: map<nat, Clause>, now: map<nat, Clause>, c: Clause) {
    exists r ::
      && r in now
      && r !in before
      && Lits(now[r]) == Lits(c)
      && now.Keys == before.Keys + {r}
      && forall q :: q in before ==> now[q] == before[q]
  }

  lemma NothingStored(orig: Formula, vars: set<int>, vals: map<int, bool>, trail: seq<Lit>, watches: WatchLists,
        hash: map<nat, nat>)
    requires vals == map[] && trail == [] && watches == map[] && vars == {} && hash == map[]
    ensures Stored(orig, map[], {}, vars, 0) && Trailed(vars, vals, trail, watches) && Watched(map[], {}, watches)
    ensures Follows(orig, [], vals) && Safe(map[], {}, vals, []) && TableOk([], hash, {})
  {
    GrownNot(map[], []);
    EmptyTable(hash);
  }

  lemma NewStored(orig: Formula, literals: map<nat, Clause>, garbage: set<nat>, vars: set<int>, next: nat,
        simplified: Clause, c: Clause)
    requires Stored(orig, literals, garbage, vars, next) && Consequence(orig, Lits(simplified)) && |c| >= 2
    requires (forall l :: l in simplified <==> l in c) && forall l :: l in simplified ==> Var(l) in vars
    ensures Stored(orig, literals[next := c], garbage, vars, next + 1) && next !in literals && next !in garbage
    ensures Lits(c) == Lits(simplified)
  {
    assert Lits(c) == Lits(simplified);
    var now := literals[next := c];
    forall r | r in now
      ensures r < next + 1 && |now[r]| >= 2 && ClauseVars(now[r]) <= vars && Consequence(orig, Lits(now[r]))
    {
      if r != next {
        assert Consequence(orig, Lits(literals[r]));
      }
    }
  }

  /** All that storing and watching a new clause keeps. */
  lemma ClauseStored(orig: Formula, literals: map<nat, Clause>, garbage: set<nat>, vars: set<int>, next: nat,
        vals: map<int, bool>, trail: seq<Lit>,
      watches: WatchLists, simplified: Clause, c: Clause)
    requires Watched(literals, garbage, watches) && Stored(orig, literals, garbage, vars, next)
    requires Trailed(vars, vals, trail, watches)
    requires Safe(literals, garbage, vals, []) && Consequence(orig, Lits(simplified)) && NoDuplicates(simplified)
    requires (forall l :: l in simplified ==> Var(l) in vars) && multiset(c) == multiset(simplified)
    requires |c| >= 2 && Val(c[0], vals) == 0 && Val(c[1], vals) == 0
    ensures c[0] in watches && c[1] in watches
    ensures Watched(literals[next := c], garbage, WithClause(watches, next, c))
    ensures Stored(orig, literals[next := c], garbage, vars, next + 1)
    ensures Trailed(vars, vals, trail, WithClause(watches, next, c)) && Safe(literals[next := c], garbage, vals, [])
    ensures WithClause(watches, next, c).Keys == watches.Keys && Grows(literals, literals[next := c], simplified)
    ensures Refs(literals[next := c], garbage) == Refs(literals, garbage) + {next} && next !in literals
    ensures next !in garbage && next !in Refs(literals, garbage)
  {
    hide Watched, Stored, Trailed, Safe, WithClause, Consequence, Grows;
    SameLiterals(simplified, c);
    StoredFacts(orig, literals, garbage, vars, next);
    VarsListed(vars, vals, trail, watches, c);
    NewWatched(literals, garbage, watches, next, c);
    NewStored(orig, literals, garbage, vars, next, simplified, c);
    NewSafe(literals, garbage, vals, next, c);
    assert c[0] in c && c[1] in c;
    KeysTrailed(vars, vals, trail, watches, WithClause(watches, next, c));
    NewLive(literals, garbage, next, c);
    GrowsSame(literals, literals[next := c], c, simplified);
  }

  lemma VarsListed(vars: set<int>, vals: map<int, bool>, trail: seq<Lit>, watches: WatchLists, c: Clause)
    requires Trailed(vars, vals, trail, watches) && forall l :: l in c ==> Var(l) in vars
    ensures forall l :: l in c ==> l in watches
  {
  }

  lemma NewSafe(literals: map<nat, Clause>, garbage: set<nat>, vals: map<int, bool>, next: nat, c: Clause)
    requires Safe(literals, garbage, vals, []) && |c| >= 2 && Val(c[0], vals) == 0 && Val(c[1], vals) == 0
    ensures Safe(literals[next := c], garbage, vals, [])
  {
    hide HasTrue;
    forall r | r in literals[next := c] && r !in garbage
      ensures SafeClause(literals[next := c][r], vals, [])
    {
      assert r != next ==> SafeClause(literals[r], vals, []);
    }
  }

  lemma NewLive(literals: map<nat, Clause>, garbage: set<nat>, next: nat, c: Clause)
    requires next !in literals && next !in garbage
    ensures Refs(literals[next := c], garbage) == Refs(literals, garbage) + {next}
    ensures Grows(literals, literals[next := c], c)
  {
    var now := literals[next := c];
    assert now[next] == c && now.Keys == literals.Keys + {next};
  }

  lemma FalsifiedRefutes(orig: Formula, vals: map<int, bool>, c: Clause)
    requires Follows(orig, [], vals) && Consequence(orig, Lits(c)) && forall l :: l in c ==> Val(l, vals) < 0
    ensures Consequence(orig, {})
  {
    ConflictFollows(orig, [], vals, c);
    assert Lits([]) == {};
  }

  lemma UnitImplied(orig: Formula, vals: map<int, bool>, c: Clause, l: Lit)
    requires Follows(orig, [], vals) && Consequence(orig, Lits(c)) && Val(l, vals) == 0
    requires forall k :: k in c && k != l ==> Val(k, vals) < 0
    ensures Follows(orig, [], SetFalse(Neg(l), vals))
  {
    UnitFollows(orig, [], vals, c, l);
  }

  /** Without assignment all watches are safe. */
  lemma NothingFalse(literals: map<nat, Clause>, garbage: set<nat>, orig: Formula, vars: set<int>, next: nat)
    requires Stored(orig, literals, garbage, vars, next)
    ensures Safe(literals, garbage, map[], [])
  {
  }

  lemma GrownAll(vars: set<int>, vals: map<int, bool>, trail: seq<Lit>, watches: WatchLists)
    requires Trailed(vars, vals, trail, watches)
    ensures Grown(map[], [], vals, trail)
  {
  }

  lemma ReorderedKeys(now: map<nat, Clause>, before: map<nat, Clause>, watches: WatchLists, lists: WatchLists)
    requires Reordered(now, before) && watches.Keys == lists.Keys
    ensures now.Keys == before.Keys && forall l :: l in watches ==> l in lists
  {
    forall l | l in watches
      ensures l in lists
    {
      assert l in watches.Keys;
    }
  }

  lemma StoredFacts(orig: Formula, literals: map<nat, Clause>, garbage: set<nat>, vars: set<int>, next: nat)
    requires Stored(orig, literals, garbage, vars, next)
    ensures garbage <= literals.Keys && next !in literals && next !in garbage
  {
  }

  /** The clauses in the first `i` chains are not satisfied. */
  ghost predicate NoneTrue(table: Table, i: nat, literals: map<nat, Clause>, vals: map<int, bool>) {
    forall h, r :: 0 <= h < i && h < |table| && r in table[h] ==> r in literals && !HasTrue(literals[r], vals)
  }

  lemma MoreGarbageKeeps(orig: Formula, literals: map<nat, Clause>, garbage0: set<nat>, garbage: set<nat>,
        vars: set<int>, next: nat,
      vals: map<int, bool>, watches: WatchLists)
    requires Stored(orig, literals, garbage0, vars, next) && Safe(literals, garbage0, vals, [])
    requires Watched(literals, garbage0, watches)
    requires garbage0 <= garbage <= literals.Keys
    ensures Stored(orig, literals, garbage, vars, next) && Safe(literals, garbage, vals, [])
    ensures Watched(literals, garbage, watches)
  {
    hide SafeClause, Consequence, AllLists, WatchedClause;
  }

  lemma GrowsSame(before: map<nat, Clause>, now: map<nat, Clause>, c: Clause, d: Clause)
    requires Grows(before, now, c) && Lits(c) == Lits(d)
    ensures Grows(before, now, d)
  {
    var r :|
      && r in now
      && r !in before
      && Lits(now[r]) == Lits(c)
      && now.Keys == before.Keys + {r}
      && forall q :: q in before ==> now[q] == before[q];
    assert Lits(now[r]) == Lits(d);
  }

  lemma FreeStored(orig: Formula, literals: map<nat, Clause>, garbage: set<nat>, vars: set<int>, next: nat,
        vals: map<int, bool>)
    requires Stored(orig, literals, garbage, vars, next) && Safe(literals, garbage, vals, [])
    ensures Stored(orig, literals - garbage, {}, vars, next) && Safe(literals - garbage, {}, vals, [])
  {
    hide SafeClause, Consequence;
  }

  lemma FreeLive(literals: map<nat, Clause>, garbage: set<nat>)
    ensures Refs(literals - garbage, {}) == Refs(literals, garbage)
  {
  }

  lemma NothingFiltered(ws: seq<Watch>, garbage: set<nat>, l: Lit, literals: map<nat, Clause>)
    ensures ListOf(l, [], literals) && forall r :: Has([], r) <==> Has(ws[..0], r) && r !in garbage
  {
  }

  /** A clause that is not deleted has this hash and these literals. */
  ghost predicate Known(literals: map<nat, Clause>, garbage: set<nat>, hash: map<nat, nat>, x: nat, c: Clause) {
    exists r :: r in literals && r !in garbage && r in hash && hash[r] == x && Lits(literals[r]) == Lits(c)
  }

  /** One such clause has become garbage. */
  ghost predicate Deleted(literals: map<nat, Clause>, garbage0: set<nat>, garbage: set<nat>, hash: map<nat, nat>,
        x: nat, c: Clause) {
    exists r ::
      && r in literals
      && r !in garbage0
      && r in hash
      && hash[r] == x
      && Lits(literals[r]) == Lits(c)
      && garbage == garbage0 + {r}
  }

  lemma DeleteKeeps(orig: Formula, literals: map<nat, Clause>, garbage: set<nat>, d: nat, vars: set<int>, next: nat,
      vals: map<int, bool>, watches: WatchLists, inconsistent: bool)
    requires Stored(orig, literals, garbage, vars, next) && Watched(literals, garbage, watches) && d in literals
    requires !inconsistent ==> Safe(literals, garbage, vals, [])
    ensures Stored(orig, literals, garbage + {d}, vars, next) && Watched(literals, garbage + {d}, watches)
    ensures !inconsistent ==> Safe(literals, garbage + {d}, vals, [])
  {
    hide SafeClause, Consequence, AllLists, WatchedClause;
  }

  lemma TrailTrue(vars: set<int>, vals: map<int, bool>, trail: seq<Lit>, watches: WatchLists, l: Lit)
    requires Trailed(vars, vals, trail, watches) && l in trail
    ensures Val(l, vals) > 0
  {
  }

  lemma TrueIsTrivial(c: Clause, kept: Clause, vals: map<int, bool>)
    requires Lits(kept) == Lits(c)
    ensures (exists l :: l in kept && Val(l, vals) > 0) ==> Trivial(c, vals)
  {
    if l :| l in kept && Val(l, vals) > 0 {
      assert l in Lits(c);
    }
  }

  lemma MoreVariables(orig: Formula, literals: map<nat, Clause>, garbage: set<nat>, vars: set<int>, next: nat,
        vals: map<int, bool>, trail: seq<Lit>,
      lists: WatchLists, watches: WatchLists, sizeVars: nat, l: Lit)
    requires Stored(orig, literals, garbage, vars, next) && Trailed(vars, vals, trail, lists)
    requires Sized(vars, sizeVars, lists.Keys)
    requires watches.Keys == lists.Keys + {l, Neg(l)} && Var(l) < sizeVars
    ensures Stored(orig, literals, garbage, vars + {Var(l)}, next) && Trailed(vars + {Var(l)}, vals, trail, watches)
    ensures Sized(vars + {Var(l)}, sizeVars, watches.Keys)
  {
    hide Consequence, Grown;
    forall k: Lit | Var(k) in vars + {Var(l)}
      ensures k in watches
    {
      assert k in lists || k in {l, Neg(l)};
      assert k in watches.Keys;
    }
  }

  lemma MoreOriginals(orig: Formula, c: set<Lit>, literals: map<nat, Clause>, garbage: set<nat>, vars: set<int>,
        next: nat, vals: map<int, bool>, inconsistent: bool)
    requires Stored(orig, literals, garbage, vars, next)
    requires if inconsistent then Consequence(orig, {}) else Follows(orig, [], vals)
    ensures Stored(orig + {c}, literals, garbage, vars, next)
    ensures if inconsistent then Consequence(orig + {c}, {}) else Follows(orig + {c}, [], vals)
  {
    forall r | r in literals
      ensures Consequence(orig + {c}, Lits(literals[r]))
    {
      assert Consequence(orig, Lits(literals[r]));
    }
  }

  lemma OriginalImplied(orig: Formula, c: Clause, kept: Clause)
    requires Lits(c) in orig && Lits(kept) == Lits(c)
    ensures Consequence(orig, Lits(kept))
  {
  }

  lemma SameLits(a: Clause, b: Clause)
    requires Lits(a) == Lits(b)
    ensures forall l :: l in a <==> l in b
  {
    forall l
      ensures l in a <==> l in b
    {
      assert l in Lits(a) <==> l in Lits(b);
    }
  }

  lemma KeptVars(c: Clause, kept: Clause, vars: set<int>)
    requires Lits(kept) == Lits(c) && forall l :: l in c ==> Var(l) in vars
    ensures forall l :: l in kept ==> Var(l) in vars
    ensures forall l :: l in c <==> l in kept
  {
    forall l
      ensures l in c <==> l in kept
    {
      assert l in Lits(c) <==> l in Lits(kept);
    }
  }

  lemma TrivialImplied(orig: Formula, c: Clause, vals: map<int, bool>)
    requires Trivial(c, vals) && Follows(orig, [], vals)
    ensures Consequence(orig, Lits(c))
  {
    var l :| l in c && (Neg(l) in c || Val(l, vals) > 0);
    forall m: Model | Models(m, orig)
      ensures SatLits(Lits(c), m)
    {
      assert !SatClause([], m);
      AgreesTrue(m, vals, l);
      assert l in Lits(c);
      if !True(l, m) {
        assert Neg(l) in Lits(c);
      }
    }
  }

  lemma SameRefs(now: map<nat, Clause>, before: map<nat, Clause>, garbage: set<nat>)
    requires now.Keys == before.Keys
    ensures Refs(now, garbage) == Refs(before, garbage)
  {
  }

  lemma SizedSame(vars: set<int>, sizeVars: nat, lists: WatchLists, watches: WatchLists)
    requires Sized(vars, sizeVars, lists.Keys) && watches.Keys == lists.Keys
    ensures Sized(vars, sizeVars, watches.Keys)
  {
  }
}

/** Globally blocked clause elimination (conditioning). */
module Condition {
  import opened Logic
  import opened Reconstruction
  import opened Clauses
  import opened Autarky
  import opened Candidates

  /** All assigned variables are on the trail, with the sign they have there. */
  ghost predicate OnTrail(trail: seq<Lit>, vals: map<int, bool>) {
    && (forall l :: l in trail ==> Val(l, vals) >= 0)
    && (forall v :: v in vals ==> v in ClauseVars(trail))
  }

  class Conditioner {
    const maxVar: nat
    const active: set<int>
    const frozen: set<int>
    const phases: map<int, bool>       // saved phases; true where there is none
    const root: map<int, bool>         // assigned at decision level zero
    const literals: map<nat, Clause>   // the irredundant clauses
    const clauses: seq<nat>
    const reasons: set<nat>            // reasons of assigned literals, protected
    var garbage: set<nat>
    var vals: map<int, bool>
    var trail: seq<Lit>
    var bits: set<int>                 // the conditional bit of variables
    var marked: set<Lit>               // the candidate clause
    var occs: map<Lit, seq<nat>>       // watched clauses
    var conditional: seq<Lit>
    var unassigned: seq<Lit>
    var conditioned: set<nat>
    var condprops: nat
    var extension: seq<Entry>
    ghost var gathered: set<nat>       // the clauses classified in this round

    ghost function F(): Formula
      reads this`garbage
    {
      Live(literals, garbage) + Units(root)
    }

    ghost function LiveRefs(): set<nat>
      reads this`garbage
    {
      literals.Keys - garbage
    }

    /** The initial partition, the same for all candidates. */
    ghost predicate Partition()
      reads this`garbage, this`vals, this`trail, this`bits, this`marked, this`occs, this`conditional, this`unassigned,
            this`gathered
    {
      && AllGuarded(gathered, literals, vals, bits, occs, []) && ListsOk(occs, literals, gathered)
      && bits == ClauseVars(conditional)
      && NoDuplicates(conditional)
      && (forall l :: l in conditional ==> Val(l, vals) > 0)
      && LiveRefs() <= gathered && OnTrail(trail, vals) && vals.Keys !! root.Keys && (forall v :: v in root ==> v > 0)
      && (forall v :: v in vals ==> v !in frozen) && marked == {} && unassigned == []
    }

    // ---------------------------------------------------------- one candidate

    /** The first autarky literal of a clause. */
    method FindAutarky(c: nat) returns (found: Option<Lit>)
      requires c in literals
      ensures found.Some? ==> found.value in literals[c] && IsAutarky(found.value, vals, bits)
      ensures found == None ==> forall l :: l in literals[c] ==> !IsAutarky(l, vals, bits)
    {
      var lits := literals[c];
      for k := 0 to |lits|
        invariant forall j :: 0 <= j < k ==> !IsAutarky(lits[j], vals, bits)
      {
        if IsAutarky(lits[k], vals, bits) {
          return Some(lits[k]);
        }
      }
      return None;
    }

    /** Mark the candidate and find its first autarky literal. */
    method MarkCandidate(c: nat) returns (watched: Option<Lit>)
      requires c in literals && marked == {}
      modifies this`marked
      ensures marked == Lits(literals[c])
      ensures watched.Some? ==> watched.value in literals[c] && IsAutarky(watched.value, vals, bits)
      ensures watched == None ==> forall l :: l in literals[c] ==> !IsAutarky(l, vals, bits)
    {
      var lits := literals[c];
      watched := None;
      for k := 0 to |lits|
        invariant marked == Lits(lits[..k])
        invariant watched.Some? ==> watched.value in lits && IsAutarky(watched.value, vals, bits)
        invariant watched == None ==> forall j :: 0 <= j < k ==> !IsAutarky(lits[j], vals, bits)
      {
        LitsOfPrefix(lits, k);
        marked := marked + {lits[k]};
        if watched.Some? {
          continue;
        }
        if !IsAutarky(lits[k], vals, bits) {
          continue;
        }
        watched := Some(lits[k]);
      }
      assert lits[..|lits|] == lits;
    }

    method UnmarkCandidate(c: nat)
      requires c in literals && marked == Lits(literals[c])
      modifies this`marked
      ensures marked == {}
    {
      var lits := literals[c];
      assert lits[0..] == lits;
      for k := 0 to |lits|
        invariant forall l :: l in marked ==> l in lits[k..]
      {
        assert lits[k..] == [lits[k]] + lits[k+1..];
        marked := marked - {lits[k]};
      }
      assert lits[|lits|..] == [];
    }

    /** What holds during the refinement for candidate `c`. */
    ghost predicate Refining(c: nat, vals0: map<int, bool>, bits0: set<int>, conditional0: seq<Lit>, next: nat)
      reads this`vals, this`bits, this`occs, this`conditional, this`unassigned, this`gathered
    {
      && c in literals
      && Largest(literals[c], gathered, literals, vals0, bits0, vals, bits)
      && Stacks(vals, vals0, bits, conditional, unassigned)
      && conditional0 <= conditional
      && next <= |conditional| && Remaining(literals[c], vals, bits, conditional, next)
      && (forall l :: l in unassigned ==> l in conditional[..next])
      && ListsOk(occs, literals, gathered) && AllGuarded(gathered, literals, vals0, bits0, occs, [])
    }

    ghost function Measure(vals0: map<int, bool>): nat
      reads this`bits, this`conditional
    {
      Unmarked(vals0, bits) + |conditional|
    }

    ghost predicate Watches(c: nat, watched: Option<Lit>)
      reads this`vals, this`bits
    {
      && c in literals && (watched.Some? ==> watched.value in literals[c] && IsAutarky(watched.value, vals, bits))
      && (watched == None ==> forall l :: l in literals[c] ==> !IsAutarky(l, vals, bits))
    }

    /** Turn the negations of false autarky literals into conditional literals, and
        replace the watched literal of the candidate if it is one of them. */
    method RefineClause(d: nat, c: nat, watched0: Lit, ghost vals0: map<int, bool>, ghost bits0: set<int>,
          ghost conditional0: seq<Lit>, ghost next: nat)
      returns (watched: Option<Lit>)
      requires Refining(c, vals0, bits0, conditional0, next) && d in literals && d in gathered
      requires !HasTrue(literals[d], vals) && Watches(c, Some(watched0))
      modifies this`bits, this`conditional
      ensures Refining(c, vals0, bits0, conditional0, next) && Watches(c, watched)
      ensures Measure(vals0) == old(Measure(vals0))
      ensures old(conditional) <= conditional && old(bits) <= bits
      ensures watched.Some? ==> AllConditional(literals[d], vals, bits)
    {
      hide Largest, Stacks, Remaining, Unmarked, AllGuarded, ListsOk;
      var lits := literals[d];
      watched := Some(watched0);
      var k := 0;
      while watched.Some? && k < |lits|
        invariant 0 <= k <= |lits| && Refining(c, vals0, bits0, conditional0, next) && Watches(c, watched)
        invariant Measure(vals0) == old(Measure(vals0)) && old(conditional) <= conditional && old(bits) <= bits
        invariant watched.Some? ==> forall j :: 0 <= j < k && Val(lits[j], vals) < 0 ==> Var(lits[j]) in bits
        decreases |lits| - k
      {
        var lit := lits[k];
        k := k + 1;
        if !IsAutarky(Neg(lit), vals, bits) {
          continue;
        }
        MarkConditional(vals, vals0, bits, conditional, unassigned, Neg(lit), literals[c], next);
        LargestMark(literals[c], gathered, literals, vals0, bits0, vals, bits, d, lit);
        PrefixKept(conditional, Neg(lit), next);
        bits := bits + {Var(lit)};
        conditional := conditional + [Neg(lit)];
        if Neg(lit) != watched.value {
          continue;
        }
        watched := FindAutarky(c);
      }
    }

    /** A true literal of a watched clause, the last one, and the number of its false
        autarky literals. */
    method FindReplacement(d: nat) returns (replacement: Option<Lit>, negative: nat)
      requires d in literals
      ensures replacement.Some? ==> replacement.value in literals[d] && Val(replacement.value, vals) > 0
      ensures replacement == None ==> !HasTrue(literals[d], vals)
      ensures negative == 0 ==> AllConditional(literals[d], vals, bits)
    {
      var lits := literals[d];
      replacement, negative := None, 0;
      for k := 0 to |lits|
        invariant replacement.Some? ==> replacement.value in lits && Val(replacement.value, vals) > 0
        invariant replacement == None ==> forall j :: 0 <= j < k ==> Val(lits[j], vals) <= 0
        invariant negative == 0 ==> forall j :: 0 <= j < k && Val(lits[j], vals) < 0 ==> Var(lits[j]) in bits
      {
        var lit := lits[k];
        if Val(lit, vals) > 0 {
          replacement := Some(lit);
        }
        if Val(lit, vals) < 0 && IsAutarky(Neg(lit), vals, bits) {
          negative := negative + 1;
        }
      }
    }

    /** The clauses watched by a literal that has been unassigned: find another true
        literal to watch, or make false autarky literals conditional. */
    method VisitWatches(u: Lit, c: nat, watched0: Lit, ghost vals0: map<int, bool>, ghost bits0: set<int>,
          ghost conditional0: seq<Lit>, ghost next: nat)
      returns (watched: Option<Lit>)
      requires Refining(c, vals0, bits0, conditional0, next) && Watches(c, Some(watched0)) && Val(u, vals) == 0
      requires AllGuarded(gathered, literals, vals, bits, occs, [u])
      modifies this`bits, this`conditional, this`occs
      ensures Refining(c, vals0, bits0, conditional0, next) && Watches(c, watched)
      ensures Measure(vals0) == old(Measure(vals0))
      ensures old(conditional) <= conditional
      ensures watched.Some? ==> AllGuarded(gathered, literals, vals, bits, occs, [])
    {
      hide Largest, Stacks, Remaining, Unmarked, AllGuarded, ListsOk, Visiting, MoreWatches, AllConditional, HeldBy,
           IsAutarky, Val, Listed;
      var os := Listed(occs, u);
      var kept: seq<nat> := [];
      watched := Some(watched0);
      StartVisiting(gathered, literals, vals, bits, occs, u);
      assert os[0..] == os;
      var j := 0;
      while watched.Some? && j < |os|
        invariant 0 <= j <= |os| && Refining(c, vals0, bits0, conditional0, next) && Watches(c, watched)
        invariant Measure(vals0) == old(Measure(vals0)) && old(conditional) <= conditional
        invariant forall r :: r in kept ==> r in os
        invariant Listed(occs, u) == os
        invariant forall r :: r in os[..j] && r !in kept && r in literals ==> HeldBy(r, literals[r], occs, vals)
        invariant watched.Some? ==> Visiting(gathered, literals, vals, bits, occs, os[j..])
        decreases |os| - j
      {
        var d := os[j];
        ListedOk(occs, literals, gathered, u);
        PrefixOf(os, j);
        ghost var bits1, occs1 := bits, occs;
        var replacement, negative := FindReplacement(d);
        if replacement.Some? {
          AddWatch(occs, literals, gathered, replacement.value, d, vals);
          NotUnassigned(replacement.value, u, vals);
          WatchesMore(gathered, literals, vals0, bits0, vals, occs, replacement.value, d, u);
          occs := occs[replacement.value := Listed(occs, replacement.value) + [d]];
          VisitingStep(gathered, literals, vals, bits1, bits, occs1, occs, os, j);
          j := j + 1;
          continue;
        }
        kept := kept + [d];
        if negative != 0 {
          watched := RefineClause(d, c, watched.value, vals0, bits0, conditional0, next);
        }
        SameWatches(occs);
        if watched.Some? {
          VisitingStep(gathered, literals, vals, bits1, bits, occs1, occs, os, j);
        }
        j := j + 1;
      }
      ShrunkBelow(vals, vals0, bits, conditional, unassigned);
      FinishVisit(u, os, kept, j, watched.Some?, vals0, bits0);
      occs := occs[u := kept + os[j..]];
    }

    /** The list of `u` may be replaced by the clauses kept and those not visited. */
    lemma FinishVisit(u: Lit, os: seq<nat>, kept: seq<nat>, j: nat, all: bool, vals0: map<int, bool>, bits0: set<int>)
      requires j <= |os| && Listed(occs, u) == os && Val(u, vals) == 0 && (forall r :: r in kept ==> r in os)
      requires forall v :: v in vals ==> v in vals0 && vals[v] == vals0[v]
      requires forall r :: r in os[..j] && r !in kept && r in literals ==> HeldBy(r, literals[r], occs, vals)
      requires ListsOk(occs, literals, gathered) && AllGuarded(gathered, literals, vals0, bits0, occs, [])
      requires all ==> j == |os| && Visiting(gathered, literals, vals, bits, occs, os[j..])
      ensures ListsOk(occs[u := kept + os[j..]], literals, gathered)
      ensures AllGuarded(gathered, literals, vals0, bits0, occs[u := kept + os[j..]], [])
      ensures all ==> AllGuarded(gathered, literals, vals, bits, occs[u := kept + os[j..]], [])
    {
      hide HeldBy, AllGuarded, Visiting;
      var left := kept + os[j..];
      assert os == os[..j] + os[j..];
      DropMoved(gathered, literals, vals0, bits0, vals, occs, u, left);
      if all {
        assert os[j..] == [];
        VisitedAll(gathered, literals, vals, bits, occs, os[j..]);
        DropWatches(gathered, literals, vals, bits, occs, u, left);
      }
    }

    /** The refinement loop: in the end, unless it was aborted, the remaining
        assignment is split with respect to the candidate. */
    method Refine(c: nat, watched0: Lit, limit: int) returns (watched: Option<Lit>)
      requires c in literals && marked == Lits(literals[c]) && unassigned == [] && Watches(c, Some(watched0))
      requires AllGuarded(gathered, literals, vals, bits, occs, []) && ListsOk(occs, literals, gathered)
      requires bits == ClauseVars(conditional) && NoDuplicates(conditional)
      requires forall l :: l in conditional ==> Val(l, vals) > 0
      modifies this`vals, this`bits, this`occs, this`conditional, this`unassigned, this`condprops
      ensures Stacks(vals, old(vals), bits, conditional, unassigned) && old(conditional) <= conditional
      ensures old(bits) <= bits
      ensures ListsOk(occs, literals, gathered) && AllGuarded(gathered, literals, old(vals), old(bits), occs, [])
      ensures Watches(c, watched)
      ensures old(condprops) <= condprops
      ensures watched.Some? && condprops < limit ==> Splits(literals[c], gathered, literals, vals, bits)
      ensures watched == None ==> !Blockable(literals[c], gathered, literals, old(vals), old(bits))
    {
      hide Largest, Stacks, Remaining, Unmarked, AllGuarded, ListsOk, IsAutarky, Splits, ClauseVars, Val, Blockable;
      ghost var vals0, bits0, conditional0 := vals, bits, conditional;
      StartStacks(vals, bits, conditional, literals[c]);
      StartLargest(literals[c], gathered, literals, vals, bits);
      watched := Some(watched0);
      var next := 0;
      while watched.Some? && condprops < limit && next < |conditional|
        invariant old(condprops) <= condprops
        invariant Refining(c, vals0, bits0, conditional0, next) && Watches(c, watched)
        invariant watched.Some? && condprops < limit ==> AllGuarded(gathered, literals, vals, bits, occs, [])
        decreases Measure(vals0) - next
      {
        var conditionalLit := conditional[next];
        if Neg(conditionalLit) in marked {
          KeepConditional(literals[c], vals, bits, conditional, next);
          LongerPrefix(conditional, next);
          next := next + 1;
          continue;
        }
        Unassign(literals[c], vals, vals0, bits, conditional, unassigned, next);
        GuardedUnassign(gathered, literals, vals, bits, occs, conditionalLit);
        ConditionalBit(conditional, bits, conditionalLit);
        LargestUnassign(literals[c], gathered, literals, vals0, bits0, vals, bits, conditionalLit);
        AutarkyStays(watched.value, vals, bits, conditional, conditionalLit, unassigned, vals0);
        NowUnassigned(vals, unassigned, conditionalLit);
        vals := vals - {Var(conditionalLit)};
        unassigned := unassigned + [conditionalLit];
        next := next + 1;
        watched := ProcessUnassigned(|unassigned| - 1, c, watched.value, limit, vals0, bits0, conditional0, next);
      }
      MoreBits(conditional0, conditional, bits0, bits, vals, vals0, unassigned);
      if watched.Some? && condprops < limit {
        AllProcessed(next);
        Split(c, next);
      }
      if watched == None {
        LargestFails(literals[c], gathered, literals, vals0, bits0, vals, bits);
      }
    }

    lemma AllProcessed(next: nat)
      requires next == |conditional|
      ensures conditional[next..] == []
    {
    }

    lemma Split(c: nat, next: nat)
      requires c in literals && next == |conditional| && Remaining(literals[c], vals, bits, conditional, next)
      requires AllGuarded(gathered, literals, vals, bits, occs, [])
      ensures Splits(literals[c], gathered, literals, vals, bits)
    {
      GuardedSplits(gathered, literals, vals, bits, occs);
    }

    /** The loop over unassigned literals. */
    method ProcessUnassigned(nextUnassigned0: nat, c: nat, watched0: Lit, limit: int, ghost vals0: map<int, bool>,
          ghost bits0: set<int>,
        ghost conditional0: seq<Lit>, ghost next: nat) returns (watched: Option<Lit>)
      requires Refining(c, vals0, bits0, conditional0, next) && Watches(c, Some(watched0))
      requires nextUnassigned0 + 1 == |unassigned|
      requires AllGuarded(gathered, literals, vals, bits, occs, [unassigned[nextUnassigned0]])
      requires Val(unassigned[nextUnassigned0], vals) == 0
      modifies this`bits, this`occs, this`conditional, this`condprops
      ensures Refining(c, vals0, bits0, conditional0, next) && Watches(c, watched)
      ensures Measure(vals0) == old(Measure(vals0))
      ensures old(conditional) <= conditional && old(condprops) <= condprops
      ensures watched.Some? && condprops < limit ==> AllGuarded(gathered, literals, vals, bits, occs, [])
    {
      hide Largest, Stacks, Remaining, Unmarked, AllGuarded, ListsOk, IsAutarky, Val;
      watched := Some(watched0);
      var nextUnassigned := nextUnassigned0;
      while watched.Some? && condprops < limit && nextUnassigned < |unassigned|
        invariant nextUnassigned0 <= nextUnassigned <= |unassigned| && Refining(c, vals0, bits0, conditional0, next)
        invariant Watches(c, watched)
        invariant Measure(vals0) == old(Measure(vals0)) && old(conditional) <= conditional
        invariant old(condprops) <= condprops
        invariant nextUnassigned == nextUnassigned0 ==>
          AllGuarded(gathered, literals, vals, bits, occs, [unassigned[nextUnassigned0]])
        invariant nextUnassigned != nextUnassigned0 && watched.Some? ==>
          AllGuarded(gathered, literals, vals, bits, occs, [])
        decreases |unassigned| - nextUnassigned
      {
        var u := unassigned[nextUnassigned];
        nextUnassigned := nextUnassigned + 1;
        condprops := condprops + 1;
        watched := VisitWatches(u, c, watched.value, vals0, bits0, conditional0, next);
      }
    }

    /** Back to the initial partition. */
    method Restore(ghost vals0: map<int, bool>, ghost bits0: set<int>, ghost conditional0: seq<Lit>,
          initialConditional: nat)
      requires Stacks(vals, vals0, bits, conditional, unassigned) && conditional0 <= conditional
      requires initialConditional == |conditional0|
      requires bits0 == ClauseVars(conditional0)
      modifies this`vals, this`bits, this`conditional, this`unassigned
      ensures vals == vals0 && bits == bits0 && conditional == conditional0 && unassigned == []
    {
      while unassigned != []
        invariant Stacks(vals, vals0, bits, conditional, unassigned) && conditional == old(conditional)
        invariant bits == old(bits)
        decreases |unassigned|
      {
        var lit := unassigned[|unassigned| - 1];
        Reassign(vals, vals0, bits, conditional, unassigned);
        unassigned := unassigned[..|unassigned| - 1];
        vals := vals[Var(lit) := lit > 0];
      }
      AllReassigned(vals, vals0, bits, conditional);
      while initialConditional < |conditional|
        invariant initialConditional <= |conditional| && conditional0 <= conditional && vals == vals0
        invariant unassigned == []
        invariant bits == ClauseVars(conditional) && NoDuplicates(conditional)
        invariant forall l :: l in conditional ==> Val(l, vals0) > 0
        decreases |conditional|
      {
        var lit := conditional[|conditional| - 1];
        Unmark(vals0, bits, conditional);
        conditional := conditional[..|conditional| - 1];
        bits := bits - {Var(lit)};
      }
      assert conditional == conditional0;
    }

    /** Push the autarky part and the clause. */
    method PushAutarky(c: nat) returns (ghost cube: seq<Lit>)
      requires c in literals
      modifies this`extension
      ensures extension == old(extension) + [Entry(cube, c, literals[c])]
      ensures forall l :: l in cube <==> l in trail && IsAutarky(l, vals, bits)
    {
      hide IsAutarky;
      var witness_: seq<Lit> := [];
      for k := 0 to |trail|
        invariant extension == old(extension)
        invariant forall l :: l in witness_ <==> l in trail[..k] && IsAutarky(l, vals, bits)
      {
        assert trail[..k+1] == trail[..k] + [trail[k]];
        if IsAutarky(trail[k], vals, bits) {
          witness_ := witness_ + [trail[k]];
        }
      }
      assert trail[..|trail|] == trail;
      cube := witness_;
      extension := extension + [Entry(witness_, c, literals[c])];
    }

    /** Try to block one candidate clause.  The clause goes only if the pushed witness
        repairs every model of the others; the partition is the initial one again. */
    method TryCandidate(c: nat, limit: int) returns (blocked: bool, ghost es: seq<Entry>)
      requires Partition() && c in literals
      modifies this`garbage, this`vals, this`bits, this`marked, this`occs, this`conditional, this`unassigned,
               this`condprops, this`extension
      ensures Partition() && vals == old(vals) && bits == old(bits) && conditional == old(conditional)
      ensures extension == old(extension) + es
      ensures !blocked ==> es == [] && garbage == old(garbage)
      ensures old(condprops) <= condprops
      ensures blocked <==> condprops < limit && Blockable(literals[c], gathered, literals, vals, bits)
      ensures blocked ==> garbage == old(garbage) + {c} && GloballyBlocked(es, c, literals[c], F(), frozen, root)
    {
      hide Stacks, AllGuarded, ListsOk, IsAutarky, Splits, NoDuplicates, ClauseVars, OnTrail, Val, GloballyBlocked,
           Live, Units, Blockable, Largest;
      blocked, es := false, [];
      var watched := MarkCandidate(c);
      if watched == None {
        StartLargest(literals[c], gathered, literals, vals, bits);
        LargestFails(literals[c], gathered, literals, vals, bits, vals, bits);
        UnmarkCandidate(c);
        return;
      }
      ghost var vals0, bits0, conditional0 := vals, bits, conditional;
      var initialConditional := |conditional|;
      watched := Refine(c, watched.value, limit);
      if watched.Some? && condprops < limit {
        blocked := true;
        ghost var cube := PushAutarky(c);
        es := [Entry(cube, c, literals[c])];
        TrailCube(cube, vals0);
        Blocks(c, cube, watched.value, vals0);
        SplitBlocks(c, watched.value, vals0, bits0);
        garbage := garbage + {c};
      }
      Restore(vals0, bits0, conditional0, initialConditional);
      UnmarkCandidate(c);
    }

    lemma TrailCube(cube: seq<Lit>, vals0: map<int, bool>)
      requires Stacks(vals, vals0, bits, conditional, unassigned) && OnTrail(trail, vals0)
      requires forall l :: l in cube <==> l in trail && IsAutarky(l, vals, bits)
      ensures IsCube(cube, vals, bits)
    {
      forall l: Lit | IsAutarky(l, vals, bits)
        ensures l in trail
      {
        var k :| k in trail && Var(k) == Var(l);
        assert Val(k, vals0) >= 0 && k == l;
      }
    }

    lemma Blocks(c: nat, cube: seq<Lit>, l: Lit, vals0: map<int, bool>)
      requires LiveRefs() <= gathered && c in literals && IsCube(cube, vals, bits)
      requires Splits(literals[c], gathered, literals, vals, bits)
      requires l in literals[c] && IsAutarky(l, vals, bits) && Stacks(vals, vals0, bits, conditional, unassigned)
      requires vals0.Keys !! root.Keys && (forall v :: v in root ==> v > 0) && forall v :: v in vals0 ==> v !in frozen
      ensures GloballyBlocked([Entry(cube, c, literals[c])], c, literals[c],
        Live(literals, garbage + {c}) + Units(root), frozen, root)
    {
      FewerSplits(literals[c], gathered, LiveRefs(), literals, vals, bits);
      hide Splits;
      forall v | v in vals
        ensures v !in root
      {
        assert v in vals0.Keys;
      }
      AutarkyIsRedundant(literals, garbage, root, vals, bits, c, cube, l);
      forall k | k in cube
        ensures Var(k) !in frozen && Var(k) !in root
      {
        assert Var(k) in vals0.Keys;
      }
    }

    lemma SplitBlocks(c: nat, l: Lit, vals0: map<int, bool>, bits0: set<int>)
      requires c in literals && Splits(literals[c], gathered, literals, vals, bits)
      requires Stacks(vals, vals0, bits, conditional, unassigned)
      requires l in literals[c] && IsAutarky(l, vals, bits) && bits0 <= bits
      ensures Blockable(literals[c], gathered, literals, vals0, bits0)
    {
      hide Splits;
      assert IsSplit(literals[c], gathered, literals, vals0, bits0, vals, bits) && HasAutarky(literals[c], vals, bits);
    }

    // ---------------------------------------------------------------- the round

    /** The state between rounds. */
    ghost predicate Valid()
      reads this`vals, this`trail, this`bits, this`marked, this`occs, this`conditional, this`unassigned
    {
      && (forall l :: l in trail ==> Val(l, vals) > 0)
      && (forall v :: v in vals ==> v in ClauseVars(trail) && 1 <= v <= maxVar)
      && Below(root, vals) && bits == {} && marked == {} && occs == map[] && conditional == [] && unassigned == []
      && (forall c :: c in clauses <==> c in literals)
    }

    /** Unassign inactive and frozen literals, decide all other variables. */
    method AssignAll()
      requires Valid()
      modifies this`vals, this`trail
      ensures old(trail) <= trail && OnTrail(trail, vals) && Below(root, vals)
      ensures forall v :: v in vals && v !in root ==> v !in frozen
      ensures forall k :: |old(trail)| <= k < |trail| ==> Var(trail[k]) !in ClauseVars(old(trail))
      ensures Total(Open(), old(Start()))
    {
      hide Assigning, Choosing;
      ghost var trail0, vals0, s := trail, vals, Start();
      StartChoosing(s);
      StartAssigning(trail, vals, root, frozen, maxVar);
      for idx := 1 to maxVar + 1
        invariant Assigning(idx, trail, vals, trail0, vals0, root, frozen) && Choosing(idx, vals, s)
      {
        if idx in vals {
          KeepAssigned(idx, trail, vals, trail0, vals0, root, frozen);
          ChooseNext(idx, vals, s);
          if idx !in root {
            if idx !in active {
              vals := vals - {idx};
            }
            if idx in frozen {
              vals := vals - {idx};
            }
          }
        } else if idx in frozen {
          KeepUnassigned(idx, trail, vals, trail0, vals0, root, frozen);
          ChooseNext(idx, vals, s);
        } else if idx !in active {
          KeepUnassigned(idx, trail, vals, trail0, vals0, root, frozen);
          ChooseNext(idx, vals, s);
        } else {
          var positive := Phase(idx, phases);
          var lit: Lit := if positive then idx else 0 - idx;
          Decide(idx, trail, vals, trail0, vals0, root, frozen, lit);
          ChooseNext(idx, vals, s);
          vals := vals[idx := positive];
          trail := trail + [lit];
        }
      }
      AllAssigned(maxVar, trail, vals, trail0, vals0, root, frozen);
      AllChosen(maxVar + 1, vals, s);
    }

    ghost function Start(): Setting
      reads this`garbage, this`vals
    {
      Setting(literals, garbage, root, active, frozen, phases, maxVar, vals)
    }

    /** The non-root-level assignment. */
    ghost function Open(): map<int, bool>
      reads this`vals
    {
      vals - root.Keys
    }

    /** Numbers of true and false literals that are not assigned at root level, and
        the true one with the fewest watches. */
    method CountLiterals(c: nat, sizeMax: nat)
      returns (satisfied: Option<Lit>, positive: nat, negative: nat, watch: Option<Lit>)
      requires c in literals && Below(root, vals) && forall l :: |Listed(occs, l)| < sizeMax
      ensures satisfied.Some? ==>
        satisfied.value in literals[c] && Var(satisfied.value) in root && Val(satisfied.value, vals) > 0
      ensures positive > 0 ==> watch.Some? && watch.value in literals[c] && Val(watch.value, Open()) > 0
      ensures satisfied == None && positive == 0 ==> forall l :: l in literals[c] ==> Val(l, Open()) <= 0
      ensures satisfied == None && negative == 0 ==> forall l :: l in literals[c] ==> Val(l, Open()) >= 0
      ensures satisfied.Some? <==> HasTrue(literals[c], root)
      ensures satisfied == None ==> (positive > 0 <==> HasTrue(literals[c], Open()))
    {
      var lits := literals[c];
      var minSize := sizeMax;
      satisfied, positive, negative, watch := None, 0, 0, None;
      var k := 0;
      while satisfied == None && k < |lits|
        invariant 0 <= k <= |lits|
        invariant satisfied.Some? ==>
          satisfied.value in lits && Var(satisfied.value) in root && Val(satisfied.value, vals) > 0
        invariant positive == 0 ==> minSize == sizeMax
        invariant positive > 0 ==> watch.Some? && watch.value in lits && Val(watch.value, Open()) > 0
        invariant satisfied == None && positive == 0 ==> forall j :: 0 <= j < k ==> Val(lits[j], Open()) <= 0
        invariant satisfied == None && negative == 0 ==> forall j :: 0 <= j < k ==> Val(lits[j], Open()) >= 0
        invariant satisfied == None ==> forall j :: 0 <= j < k ==> Val(lits[j], vals) <= 0 || Var(lits[j]) !in root
        decreases |lits| - k
      {
        var lit := lits[k];
        var tmp := Val(lit, vals);
        if tmp != 0 && Var(lit) in root {
          if tmp > 0 {
            satisfied := Some(lit);
          }
        } else if tmp < 0 {
          negative := negative + 1;
        } else if tmp > 0 {
          var size := |Listed(occs, lit)|;
          if size < minSize {
            watch, minSize := Some(lit), size;
          }
          positive := positive + 1;
        }
        k := k + 1;
      }
    }

    /** A clause with false literals only makes their negations conditional. */
    method MarkAllConditional(c: nat)
      requires c in literals && forall l :: l in literals[c] ==> Val(l, Open()) <= 0
      requires bits == ClauseVars(conditional) && NoDuplicates(conditional)
      requires forall l :: l in conditional ==> Val(l, Open()) > 0
      modifies this`bits, this`conditional
      ensures bits == ClauseVars(conditional) && NoDuplicates(conditional)
      ensures forall l :: l in conditional ==> Val(l, Open()) > 0
      ensures old(bits) <= bits && AllConditional(literals[c], Open(), bits)
      ensures forall v :: v in bits && v !in old(bits) ==> FalseIn(literals[c], Open(), v)
    {
      hide NoDuplicates, ClauseVars;
      var lits := literals[c];
      for k := 0 to |lits|
        invariant bits == ClauseVars(conditional) && NoDuplicates(conditional)
        invariant forall l :: l in conditional ==> Val(l, Open()) > 0
        invariant old(bits) <= bits && forall j :: 0 <= j < k && Val(lits[j], Open()) < 0 ==> Var(lits[j]) in bits
        invariant forall v :: v in bits && v !in old(bits) ==> FalseIn(lits, Open(), v)
      {
        var lit := lits[k];
        if Val(lit, vals) == 0 {
          continue;
        }
        if Var(lit) in root {
          continue;
        }
        if Val(Neg(lit), vals) > 0 && Var(lit) in bits {
          continue;
        }
        assert lit in lits && Val(lit, Open()) < 0;
        PushDistinct(conditional, bits, Neg(lit));
        bits := bits + {Var(lit)};
        conditional := conditional + [Neg(lit)];
      }
    }

    lemma NothingForced()
      requires bits == ClauseVars(conditional) && gathered == {} && bits == {}
      ensures Initial(gathered, literals, Open(), bits)
    {
    }

    /** What holds while clauses are gathered. */
    ghost predicate Gathering()
      reads this`vals, this`bits, this`occs, this`conditional, this`gathered
    {
      && AllGuarded(gathered, literals, Open(), bits, occs, []) && ListsOk(occs, literals, gathered)
      && bits == ClauseVars(conditional)
      && NoDuplicates(conditional)
      && (forall l :: l in conditional ==> Val(l, Open()) > 0)
    }

    /** Classify one clause: satisfied at root level, candidate, watched, or a source
        of conditional literals. */
    method GatherClause(c: nat, sizeMax: nat) returns (candidate: bool)
      requires Gathering() && c in literals && (forall l :: |Listed(occs, l)| < sizeMax) && Below(root, vals)
      requires c !in garbage
      modifies this`garbage, this`bits, this`occs, this`conditional, this`gathered
      ensures Gathering()
      ensures if garbage == old(garbage) then gathered == old(gathered) + {c}
        else
           && gathered == old(gathered) && garbage == old(garbage) + {c}
      ensures garbage != old(garbage) <==> HasTrue(literals[c], root)
      ensures candidate <==> !HasTrue(literals[c], root) && HasTrue(literals[c], Open())
      ensures Initial(old(gathered), literals, Open(), old(bits)) ==> Initial(gathered, literals, Open(), bits)
      ensures forall l :: |Listed(occs, l)| <= |old(Listed(occs, l))| + 1
    {
      hide AllGuarded, ListsOk, NoDuplicates, ClauseVars, MoreWatches, HeldBy, AllConditional, HasTrue, Initial,
           FalseIn;
      candidate := false;
      var satisfied, positive, negative, watch := CountLiterals(c, sizeMax);
      if satisfied.Some? {
        garbage := garbage + {c};
        return;
      }
      candidate := positive > 0;
      ghost var bits0, occs0 := bits, occs;
      SameWatches(occs);
      ListsOkMore(occs, literals, gathered, c);
      NoFalse(literals[c], Open(), bits, negative);
      if negative > 0 && positive > 0 {
        AddWatch(occs, literals, gathered + {c}, watch.value, c, Open());
        occs := occs[watch.value := Listed(occs, watch.value) + [c]];
      }
      if negative > 0 && positive == 0 {
        MarkAllConditional(c);
      }
      AllGuardedMore(gathered, literals, Open(), bits0, bits, occs0, occs);
      GuardedOne(gathered, literals, Open(), bits, occs, c);
      if Initial(gathered, literals, Open(), bits0) {
        InitialMore(gathered, literals, Open(), bits0, c, bits);
      }
      gathered := gathered + {c};
    }

    method Gather(ghost s: Setting) returns (candidates: seq<nat>)
      requires s.literals == literals && s.garbage == garbage && s.root == root
      requires Gathering() && gathered == {} && Below(root, vals) && occs == map[] && bits == {}
      requires (forall v :: v in root ==> v > 0) && forall c :: c in clauses <==> c in literals
      modifies this`garbage, this`bits, this`occs, this`conditional, this`gathered
      ensures Gathering() && LiveRefs() <= gathered && forall c :: c in candidates ==> c in literals
      ensures Reconstructs(F(), [], old(F())) && old(garbage) <= garbage
      ensures candidates == CandidatesOf(clauses, s, Open())
      ensures forall c :: c in garbage <==> c in old(garbage) || (c in literals && HasTrue(literals[c], root))
      ensures gathered == LiveRefs() == Unsatisfied(s) && Initial(gathered, literals, Open(), bits)
    {
      hide AllGuarded, ListsOk, NoDuplicates, ClauseVars, Live, Units, Reconstructs, HasTrue, Initial, CandidatesOf,
           Val;
      candidates := [];
      NoCandidate(s, Open());
      assert clauses[..0] == [];
      NothingReplayed(F());
      NothingForced();
      for k := 0 to |clauses|
        invariant Gathering() && (forall c :: c in clauses[..k] ==> c in garbage || c in gathered)
        invariant forall l :: |Listed(occs, l)| <= k
        invariant forall c :: c in candidates ==> c in literals
        invariant Reconstructs(F(), [], old(F())) && old(garbage) <= garbage
        invariant candidates == CandidatesOf(clauses[..k], s, Open())
        invariant forall c :: c in gathered ==> c in literals && c !in old(garbage) && !HasTrue(literals[c], root)
        invariant forall c :: c in clauses[..k] && HasTrue(literals[c], root) ==> c in garbage
        invariant forall c :: c in garbage && c !in old(garbage) ==> c in literals && HasTrue(literals[c], root)
        invariant Initial(gathered, literals, Open(), bits)
      {
        var c := clauses[k];
        assert clauses[..k+1] == clauses[..k] + [c] && c in clauses;
        OneCandidate(clauses[..k], c, s, Open());
        if c in garbage {
          continue;
        }
        ghost var garbage0 := garbage;
        var candidate := GatherClause(c, |clauses| + 1);
        if garbage != garbage0 {
          DropSatisfied(literals, garbage0, root, c, old(F()));
        }
        if candidate {
          candidates := candidates + [c];
        }
      }
      assert clauses[..|clauses|] == clauses;
    }

    /** Root-level literals are unassigned as well. */
    method UnassignRoot()
      requires OnTrail(trail, vals) && Below(root, vals)
      modifies this`vals
      ensures vals == old(vals) - root.Keys
    {
      ghost var vals0 := vals;
      ghost var gone: set<int> := {};
      assert forall v :: v in root ==> v in ClauseVars(trail);
      for k := 0 to |trail|
        invariant vals == vals0 - gone && gone == ClauseVars(trail[..k]) * root.Keys
      {
        ClauseVarsOfPrefix(trail, k);
        if Var(trail[k]) in root {
          gone := gone + {Var(trail[k])};
          vals := vals - {Var(trail[k])};
          MinusMinus(vals0, gone - {Var(trail[k])}, Var(trail[k]));
        }
      }
      assert trail[..|trail|] == trail;
      assert gone == root.Keys;
    }

    /** Candidates not tried last time first; if all have been tried they are all
        untried again. */
    method FocusCandidates(candidates: seq<nat>) returns (sorted: seq<nat>)
      modifies this`conditioned
      ensures multiset(sorted) == multiset(candidates) && conditioned == StillTried(candidates, old(conditioned))
      ensures sorted == NotIn(candidates, old(conditioned)) + Among(candidates, old(conditioned))
    {
      hide NotIn, Among;
      var untried: seq<nat>, tried: seq<nat> := [], [];
      NotInNone(conditioned);
      for k := 0 to |candidates|
        invariant multiset(untried) + multiset(tried) == multiset(candidates[..k])
        invariant untried == NotIn(candidates[..k], conditioned) && tried == Among(candidates[..k], conditioned)
        invariant conditioned == old(conditioned)
      {
        assert candidates[..k+1] == candidates[..k] + [candidates[k]];
        OneMore(candidates[..k], candidates[k], conditioned);
        if candidates[k] in conditioned {
          tried := tried + [candidates[k]];
        } else {
          untried := untried + [candidates[k]];
        }
      }
      assert candidates[..|candidates|] == candidates;
      sorted := untried + tried;
      if untried == [] {
        conditioned := conditioned - (set c | c in tried);
        SameElements(sorted, candidates);
        SameElements(candidates, sorted);
      }
    }

    /** Try one more candidate. */
    method TryNext(c: nat, limit: int, ghost es0: seq<Entry>, ghost trials: seq<Trial>, ghost extension0: seq<Entry>,
          ghost f0: Formula)
      returns (done: bool, ghost es: seq<Entry>)
      requires Partition() && c in literals && Outcomes(trials, true, gathered, literals, vals, bits)
      requires extension == extension0 + es0 && Reconstructs(F(), es0, f0) && NeverFrozen(es0, frozen, root)
      requires EntriesOf(es0, Gone(trials), literals)
      modifies this`garbage, this`vals, this`bits, this`marked, this`occs, this`conditional, this`unassigned,
               this`condprops, this`extension
      ensures Partition() && vals == old(vals) && bits == old(bits) && conditional == old(conditional)
      ensures garbage == (if done then old(garbage) + {c} else old(garbage)) && old(condprops) <= condprops
      ensures extension == extension0 + es && Reconstructs(F(), es, f0) && NeverFrozen(es, frozen, root)
      ensures |es| == |es0| + if done then 1 else 0
      ensures var now := trials + [Trial(c, done)];
              && Outcomes(now, condprops < limit, gathered, literals, vals, bits)
              && EntriesOf(es, Gone(now), literals)
    {
      hide Live, Units, Reconstructs, GloballyBlocked, Outcomes, EntriesOf, AllGuarded, ListsOk, NoDuplicates, OnTrail,
           ClauseVars, NeverFrozen, Blockable, Gone, Tried;
      ghost var garbage0, fs := garbage, [];
      done, fs := TryCandidate(c, limit);
      es := es0;
      OneMoreTrial(trials, Trial(c, done));
      OneMoreOutcome(trials, Trial(c, done), condprops < limit, gathered, literals, vals, bits);
      if done {
        BlockedReconstructs(literals, garbage0, root, c, fs, es0, f0, frozen);
        BlockedEntry(fs, c, literals, Live(literals, garbage) + Units(root), frozen, root);
        OneMoreEntry(es0, Gone(trials), fs, c, literals);
        es := es0 + fs;
      }
    }

    /** Try the candidates that are not reasons, in their order, until the limit is
        hit.  A candidate goes exactly if it is blocked. */
    method TryCandidates(candidates: seq<nat>, limit: int) returns (blocked: nat, ghost es: seq<Entry>,
        ghost trials: seq<Trial>)
      requires Partition() && forall c :: c in candidates ==> c in literals
      modifies this`garbage, this`vals, this`bits, this`marked, this`occs, this`conditional, this`unassigned,
               this`condprops, this`extension, this`conditioned
      ensures Partition() && vals == old(vals) && conditional == old(conditional) && old(garbage) <= garbage
      ensures extension == old(extension) + es && Reconstructs(F(), es, old(F())) && blocked == |es|
      ensures NeverFrozen(es, frozen, root)
      ensures Tried(trials) <= NotIn(candidates, reasons)
      ensures Tried(trials) == NotIn(candidates, reasons) || condprops >= limit || |vals| <= |conditional|
      ensures trials != [] ==> old(condprops) < limit && |vals| > |conditional|
      ensures Outcomes(trials, condprops < limit, gathered, literals, vals, bits)
      ensures EntriesOf(es, Gone(trials), literals) && garbage == old(garbage) + Refs(Gone(trials))
      ensures conditioned == old(conditioned) + Refs(Tried(trials))
    {
      hide Live, Units, Reconstructs, Outcomes, EntriesOf, AllGuarded, ListsOk, NoDuplicates, OnTrail,
           ClauseVars, NeverFrozen, Blockable, Gone, Tried, NotIn, Val, Refs;
      blocked, es, trials := 0, [], [];
      var initialAutarky := |vals| - |conditional|;
      ghost var vals0, bits0, conditional0, extension0, f0 := vals, bits, conditional, extension, F();
      NothingReplayed(f0);
      NoTrials(true, gathered, literals, vals, bits);
      NoTrials(condprops < limit, gathered, literals, vals, bits);
      NeverEmpty(frozen, root);
      NotInNone(reasons);
      assert candidates[..0] == [];
      for k := 0 to |candidates|
        invariant Partition() && vals == vals0 && bits == bits0 && conditional == conditional0
        invariant old(garbage) <= garbage
        invariant extension == extension0 + es && Reconstructs(F(), es, f0) && blocked == |es|
        invariant NeverFrozen(es, frozen, root) && old(condprops) <= condprops
        invariant Tried(trials) == NotIn(candidates[..k], reasons)
        invariant trials != [] ==> old(condprops) < limit && initialAutarky > 0
        invariant condprops < limit || trials == [] ==> Outcomes(trials, true, gathered, literals, vals, bits)
        invariant Outcomes(trials, condprops < limit, gathered, literals, vals, bits)
        invariant EntriesOf(es, Gone(trials), literals) && garbage == old(garbage) + Refs(Gone(trials))
        invariant conditioned == old(conditioned) + Refs(Tried(trials))
      {
        var c := candidates[k];
        assert candidates[..k+1] == candidates[..k] + [c];
        OneMore(candidates[..k], c, reasons);
        NotInPrefix(candidates, k, reasons);
        if initialAutarky <= 0 {
          break;
        }
        if c in reasons {
          continue;
        }
        if condprops >= limit {
          break;
        }
        conditioned := conditioned + {c};
        var done;
        done, es := TryNext(c, limit, es, trials, extension0, f0);
        if done {
          blocked := blocked + 1;
        }
        OneMoreTrial(trials, Trial(c, done));
        trials := trials + [Trial(c, done)];
      }
      assert candidates[..|candidates|] == candidates;
    }

    /** `condition_round`: assignment, trail, marks and lists are as before; every model
        of the clauses left is repaired by replaying what was pushed.  The candidates
        are the clauses satisfied by the total assignment `a`; with the conditional
        variables `b` each one tried goes exactly if it is globally blocked. */
    method ConditionRound(limit: int) returns (blocked: nat, ghost es: seq<Entry>, ghost trials: seq<Trial>,
        ghost a: map<int, bool>, ghost b: set<int>)
      requires Valid() && forall v :: v in root ==> v > 0
      modifies this
      ensures Valid() && vals == old(vals) && trail == old(trail)
      ensures extension == old(extension) + es && blocked == |es| && old(garbage) <= garbage
      ensures Reconstructs(F(), es, old(F())) && NeverFrozen(es, frozen, root)
      ensures Total(a, old(Start())) && Initial(Unsatisfied(old(Start())), literals, a, b)
      ensures var order := Order(CandidatesOf(clauses, old(Start()), a), old(conditioned), reasons);
              && Tried(trials) <= order
              && (Tried(trials) == order || condprops >= limit || a.Keys <= b)
              && (trials != [] ==> old(condprops) < limit && !(a.Keys <= b))
      ensures Outcomes(trials, condprops < limit, Unsatisfied(old(Start())), literals, a, b)
      ensures EntriesOf(es, Gone(trials), literals)
      ensures garbage == literals.Keys - Unsatisfied(old(Start())) + old(garbage) + Refs(Gone(trials))
      ensures conditioned == StillTried(CandidatesOf(clauses, old(Start()), a), old(conditioned)) +
        Refs(Tried(trials))
    {
      hide Live, Units, Reconstructs, AllGuarded, ListsOk, NoDuplicates, OnTrail, NeverFrozen, Outcomes, EntriesOf,
           Total, Initial, CandidatesOf, NotIn, Among, Tried, Gone, StillTried, Refs;
      ghost var f0, trail0, vals0 := F(), trail, vals;
      var initialTrail := |trail|;
      var sorted := PrepareRound();
      ghost var f1 := F();
      a, b := vals, bits;
      NoAutarky(vals, bits, conditional);
      blocked, es, trials := TryCandidates(sorted, limit);
      assert [] + es == es;
      ReconstructsCompose(f0, [], f1, es, F());
      Cleanup(initialTrail, trail0, vals0);
    }

    /** The assignment, its initial partition and the candidates. */
    method PrepareRound() returns (sorted: seq<nat>)
      requires Valid() && forall v :: v in root ==> v > 0
      modifies this`vals, this`trail, this`garbage, this`bits, this`occs, this`conditional, this`gathered,
               this`conditioned
      ensures Partition() && (forall c :: c in sorted ==> c in literals) && old(garbage) <= garbage
      ensures Reconstructs(F(), [], old(F())) && old(trail) <= trail
      ensures forall k :: |old(trail)| <= k < |trail| ==> Var(trail[k]) !in ClauseVars(old(trail))
      ensures Total(vals, old(Start())) && gathered == Unsatisfied(old(Start()))
      ensures Initial(gathered, literals, vals, bits)
      ensures garbage == literals.Keys - gathered + old(garbage)
      ensures var candidates := CandidatesOf(clauses, old(Start()), vals);
              && sorted == NotIn(candidates, old(conditioned)) + Among(candidates, old(conditioned))
              && conditioned == StillTried(candidates, old(conditioned))
    {
      hide Live, Units, Reconstructs, AllGuarded, ListsOk, NoDuplicates, OnTrail, Total, Initial, CandidatesOf, NotIn,
           Among, StillTried, HasTrue;
      ghost var s := Start();
      AssignAll();
      NothingGathered(literals, {}, vals - root.Keys);
      gathered := {};
      var candidates := Gather(s);
      ghost var open := Open();
      OnTrailLess(trail, vals, root.Keys);
      UnassignRoot();
      NothingMinus(vals, root.Keys);
      assert Open() == open;
      Opened();
      sorted := FocusCandidates(candidates);
      SameElements(sorted, candidates);
    }

    /** The partition starts once the root-level literals are unassigned. */
    lemma Opened()
      requires vals.Keys !! root.Keys && Gathering() && LiveRefs() <= gathered && OnTrail(trail, vals) && marked == {}
      requires unassigned == []
      requires (forall v :: v in root ==> v > 0) && forall v :: v in vals ==> v !in frozen
      ensures Partition()
    {
      NothingMinus(vals, root.Keys);
    }

    /** Marks and lists are reset, and the assignment is the one of the trail again. */
    method Cleanup(initialTrail: nat, ghost trail0: seq<Lit>, ghost vals0: map<int, bool>)
      requires bits == ClauseVars(conditional) && marked == {} && unassigned == [] && OnTrail(trail, vals)
      requires trail0 <= trail && initialTrail == |trail0|
      requires forall k :: |trail0| <= k < |trail| ==> Var(trail[k]) !in ClauseVars(trail0)
      requires (forall l :: l in trail0 ==> Val(l, vals0) > 0) && forall v :: v in vals0 ==> v in ClauseVars(trail0)
      modifies this`bits, this`conditional, this`trail, this`vals, this`occs
      ensures bits == {} && conditional == [] && occs == map[] && trail == trail0 && vals == vals0
    {
      UnmarkConditional();
      PopDecisions(initialTrail, trail0);
      occs := map[];
      ReassignTrail(initialTrail, vals0);
    }

    method ReassignTrail(initialTrail: nat, ghost vals0: map<int, bool>)
      requires OnTrail(trail, vals) && initialTrail == |trail|
      requires (forall l :: l in trail ==> Val(l, vals0) > 0) && forall v :: v in vals0 ==> v in ClauseVars(trail)
      modifies this`vals
      ensures vals == vals0
    {
      OneSigned(trail, vals0);
      for k := 0 to initialTrail
        invariant OnTrail(trail, vals) && forall j :: 0 <= j < k ==> Val(trail[j], vals) > 0
      {
        assert trail[k] in trail;
        if Val(trail[k], vals) == 0 {
          AssignOne(trail, vals, k);
          vals := vals[Var(trail[k]) := trail[k] > 0];
        }
      }
      TrailDetermines(trail, vals, vals0);
    }

    method UnmarkConditional()
      requires bits == ClauseVars(conditional)
      modifies this`bits, this`conditional
      ensures bits == {} && conditional == []
    {
      assert conditional[0..] == conditional;
      for k := 0 to |conditional|
        invariant conditional == old(conditional) && forall v :: v in bits ==> v in ClauseVars(conditional[k..])
      {
        assert conditional[k..] == [conditional[k]] + conditional[k+1..];
        bits := bits - {Var(conditional[k])};
      }
      assert conditional[|conditional|..] == [];
      assert forall v :: v !in bits;
      conditional := [];
    }

    /** Additionally assigned literals are unassigned. */
    method PopDecisions(initialTrail: nat, ghost trail0: seq<Lit>)
      requires trail0 <= trail && initialTrail == |trail0| && OnTrail(trail, vals)
      requires forall k :: |trail0| <= k < |trail| ==> Var(trail[k]) !in ClauseVars(trail0)
      modifies this`trail, this`vals
      ensures trail == trail0 && OnTrail(trail, vals)
    {
      while |trail| > initialTrail
        invariant trail0 <= trail && OnTrail(trail, vals)
        invariant forall k :: |trail0| <= k < |trail| ==> Var(trail[k]) !in ClauseVars(trail0)
        decreases |trail|
      {
        var lit := trail[|trail| - 1];
        Popped(trail, vals);
        trail := trail[..|trail| - 1];
        vals := vals - {Var(lit)};
      }
    }
  }

  ghost predicate Below(a: map<int, bool>, b: map<int, bool>) {
    forall v :: v in a ==> v in b && b[v] == a[v]
  }

  /** The variables below `idx` have been decided or unassigned if they had to. */
  ghost predicate Assigning(idx: int, trail: seq<Lit>, vals: map<int, bool>, trail0: seq<Lit>, vals0: map<int, bool>,
        root: map<int, bool>, frozen: set<int>) {
    && trail0 <= trail && OnTrail(trail, vals) && Below(root, vals) && (forall l :: l in trail0 ==> Var(l) in vals0)
    && (forall v :: v in vals0 && v >= idx ==> v in vals)
    && (forall v :: v in vals ==> v in vals0 || v < idx)
    && (forall v :: v in vals && v < idx && v !in root ==> v !in frozen)
    && (forall k :: |trail0| <= k < |trail| ==> Var(trail[k]) < idx && Var(trail[k]) !in ClauseVars(trail0))
  }

  /** The variables below `idx` have the values of the total assignment. */
  ghost predicate Choosing(idx: int, vals: map<int, bool>, s: Setting) {
    && (forall v :: v in vals && v !in s.root && v < idx ==>
          Decidable(v, s) && vals[v] == if v in s.vals then s.vals[v] else Phase(v, s.phases))
    && (forall v :: v in vals && v >= idx ==> v in s.vals && s.vals[v] == vals[v])
    && (forall v :: v in s.vals && v >= idx ==> v in vals)
    && (forall v :: Decidable(v, s) && v < idx ==> v in vals)
    && (forall v :: v in s.vals ==> 1 <= v <= s.maxVar)
  }

  lemma StartChoosing(s: Setting)
    requires Below(s.root, s.vals) && forall v :: v in s.vals ==> 1 <= v <= s.maxVar
    ensures Choosing(1, s.vals, s)
  {
  }

  lemma ChooseNext(idx: int, vals: map<int, bool>, s: Setting)
    requires Choosing(idx, vals, s) && 1 <= idx <= s.maxVar
    ensures idx in s.root || (idx in vals <==> Decidable(idx, s)) ==> Choosing(idx + 1, vals, s)
    ensures !Decidable(idx, s) && idx !in s.root ==> Choosing(idx + 1, vals - {idx}, s)
    ensures idx !in vals && Decidable(idx, s) ==> Choosing(idx + 1, vals[idx := Phase(idx, s.phases)], s)
  {
    hide Phase;
  }

  lemma AllChosen(idx: int, vals: map<int, bool>, s: Setting)
    requires Choosing(idx, vals, s) && idx == s.maxVar + 1
    ensures Total(vals - s.root.Keys, s)
  {
  }

  /** The autarky part is empty if all variables are conditional. */
  lemma NoAutarky(vals: map<int, bool>, bits: set<int>, conditional: seq<Lit>)
    requires bits == ClauseVars(conditional) && NoDuplicates(conditional)
    requires forall l :: l in conditional ==> Val(l, vals) > 0
    ensures |vals| <= |conditional| <==> vals.Keys <= bits
  {
    hide ClauseVars;
    CountVars(conditional, vals);
    assert bits <= vals.Keys;
    assert |vals| == |vals.Keys|;
    assert vals.Keys == bits + (vals.Keys - bits);
    assert |vals.Keys| == |bits| + |vals.Keys - bits|;
  }

  lemma {:induction false} CountVars(c: Clause, vals: map<int, bool>)
    requires NoDuplicates(c) && forall l :: l in c ==> Val(l, vals) > 0
    ensures |ClauseVars(c)| == |c| && ClauseVars(c) <= vals.Keys
  {
    if c != [] {
      var k := |c| - 1;
      CountVars(c[..k], vals);
      ClauseVarsOfPrefix(c, k);
      assert c[..k+1] == c;
      forall l | l in c[..k]
        ensures Var(l) != Var(c[k])
      {
        assert l in c && c[k] in c && l != c[k];
      }
    }
  }

  lemma NoCandidate(s: Setting, a: map<int, bool>)
    ensures CandidatesOf([], s, a) == []
  {
  }

  lemma NeverEmpty(frozen: set<int>, root: map<int, bool>)
    ensures NeverFrozen([], frozen, root)
  {
  }

  lemma NotInNone(out: set<nat>)
    ensures NotIn([], out) == [] && Among([], out) == []
  {
  }

  lemma BlockedEntry(fs: seq<Entry>, c: nat, literals: map<nat, Clause>, f: Formula, frozen: set<int>,
        root: map<int, bool>)
    requires c in literals && GloballyBlocked(fs, c, literals[c], f, frozen, root)
    ensures EntriesOf(fs, [c], literals)
  {
  }

  lemma StartAssigning(trail: seq<Lit>, vals: map<int, bool>, root: map<int, bool>, frozen: set<int>, maxVar: nat)
    requires (forall l :: l in trail ==> Val(l, vals) > 0)
    requires (forall v :: v in vals ==> v in ClauseVars(trail) && 1 <= v <= maxVar)
    requires Below(root, vals)
    ensures Assigning(1, trail, vals, trail, vals, root, frozen)
  {
  }

  lemma KeepAssigned(idx: int, trail: seq<Lit>, vals: map<int, bool>, trail0: seq<Lit>, vals0: map<int, bool>,
        root: map<int, bool>, frozen: set<int>)
    requires Assigning(idx, trail, vals, trail0, vals0, root, frozen)
    ensures idx in root || idx !in frozen ==> Assigning(idx + 1, trail, vals, trail0, vals0, root, frozen)
    ensures idx !in root ==> Assigning(idx + 1, trail, vals - {idx}, trail0, vals0, root, frozen)
    ensures (vals - {idx}) - {idx} == vals - {idx}
  {
  }

  lemma KeepUnassigned(idx: int, trail: seq<Lit>, vals: map<int, bool>, trail0: seq<Lit>, vals0: map<int, bool>,
        root: map<int, bool>, frozen: set<int>)
    requires Assigning(idx, trail, vals, trail0, vals0, root, frozen) && idx !in vals
    ensures Assigning(idx + 1, trail, vals, trail0, vals0, root, frozen)
  {
  }

  lemma Decide(idx: int, trail: seq<Lit>, vals: map<int, bool>, trail0: seq<Lit>, vals0: map<int, bool>, root: map<int,
        bool>, frozen: set<int>, lit: Lit)
    requires Assigning(idx, trail, vals, trail0, vals0, root, frozen) && idx !in vals && idx !in frozen
    requires Var(lit) == idx
    ensures Assigning(idx + 1, trail + [lit], vals[idx := lit > 0], trail0, vals0, root, frozen) && idx !in root
  {
    hide ClauseVars;
    Decided(trail, trail0, vals, vals0, lit);
  }

  lemma AllAssigned(maxVar: nat, trail: seq<Lit>, vals: map<int, bool>, trail0: seq<Lit>, vals0: map<int, bool>,
        root: map<int, bool>, frozen: set<int>)
    requires Assigning(maxVar + 1, trail, vals, trail0, vals0, root, frozen) && forall v :: v in vals0 ==> v <= maxVar
    ensures trail0 <= trail && OnTrail(trail, vals) && Below(root, vals)
    ensures forall v :: v in vals && v !in root ==> v !in frozen
    ensures forall k :: |trail0| <= k < |trail| ==> Var(trail[k]) !in ClauseVars(trail0)
  {
  }

  lemma Decided(trail: seq<Lit>, trail0: seq<Lit>, vals: map<int, bool>, vals0: map<int, bool>, lit: Lit)
    requires trail0 <= trail && OnTrail(trail, vals) && Var(lit) !in vals
    requires (forall l :: l in trail0 ==> Var(l) in vals0) && (Var(lit) in vals0 ==> Var(lit) in vals)
    requires forall k :: |trail0| <= k < |trail| ==> Var(trail[k]) < Var(lit)
    ensures OnTrail(trail + [lit], vals[Var(lit) := lit > 0]) && Var(lit) !in ClauseVars(trail0)
  {
    var now := trail + [lit];
    assert now[..|trail|] == trail && now[..|trail| + 1] == now;
    ClauseVarsOfPrefix(now, |trail|);
    forall l | l in trail
      ensures Var(l) != Var(lit)
    {
      var k :| 0 <= k < |trail| && trail[k] == l;
      if k < |trail0| {
        assert trail0[k] == l && l in trail0;
      }
    }
    forall l | l in trail0
      ensures Var(l) != Var(lit)
    {
    }
  }

  lemma Popped(trail: seq<Lit>, vals: map<int, bool>)
    requires trail != [] && OnTrail(trail, vals)
    ensures OnTrail(trail[..|trail| - 1], vals - {Var(trail[|trail| - 1])})
  {
    var k := |trail| - 1;
    assert trail[..k + 1] == trail;
    ClauseVarsOfPrefix(trail, k);
    forall l | l in trail[..k]
      ensures Val(l, vals - {Var(trail[k])}) >= 0
    {
      assert l in trail;
    }
  }

  lemma AssignOne(trail: seq<Lit>, vals: map<int, bool>, k: nat)
    requires k < |trail| && OnTrail(trail, vals) && Val(trail[k], vals) == 0
    requires forall j :: 0 <= j < k ==> Val(trail[j], vals) > 0
    requires OneSign(trail)
    ensures var now := vals[Var(trail[k]) := trail[k] > 0];
            OnTrail(trail, now) && forall j :: 0 <= j < k + 1 ==> Val(trail[j], now) > 0
  {
    var now := vals[Var(trail[k]) := trail[k] > 0];
    assert trail[k] in trail;
    forall l | l in trail
      ensures Val(l, now) >= 0
    {
      assert Val(l, vals) >= 0 && l != Neg(trail[k]);
    }
    assert Var(trail[k]) in ClauseVars(trail);
  }

  lemma OneSigned(trail: seq<Lit>, vals: map<int, bool>)
    requires forall l :: l in trail ==> Val(l, vals) > 0
    ensures OneSign(trail)
  {
    forall l: Lit | l in trail
      ensures Neg(l) !in trail
    {
      assert Val(Neg(l), vals) < 0;
    }
  }

  lemma OnTrailLess(trail: seq<Lit>, vals: map<int, bool>, gone: set<int>)
    requires OnTrail(trail, vals)
    ensures OnTrail(trail, vals - gone)
  {
    forall l | l in trail
      ensures Val(l, vals - gone) >= 0
    {
      assert Val(l, vals) >= 0;
    }
  }

  /** No variable has both signs on the trail. */
  ghost predicate OneSign(trail: seq<Lit>) {
    forall l: Lit :: l in trail ==> Neg(l) !in trail
  }

  lemma TrailDetermines(trail: seq<Lit>, vals: map<int, bool>, vals0: map<int, bool>)
    requires (forall l :: l in trail ==> Val(l, vals0) > 0) && forall v :: v in vals0 ==> v in ClauseVars(trail)
    requires (forall k :: 0 <= k < |trail| ==> Val(trail[k], vals) > 0)
    requires forall v :: v in vals ==> v in ClauseVars(trail)
    ensures vals == vals0
  {
    forall v | v in ClauseVars(trail)
      ensures v in vals && v in vals0 && vals[v] == vals0[v]
    {
      var l :| l in trail && Var(l) == v;
      assert Val(l, vals) > 0 && Val(l, vals0) > 0;
    }
    forall v
      ensures v in vals.Keys <==> v in vals0.Keys
    {
    }
    SameMap(vals, vals0);
  }

  lemma MinusMinus(vals: map<int, bool>, gone: set<int>, v: int)
    ensures (vals - gone) - {v} == vals - (gone + {v})
  {
  }

  lemma NothingMinus(vals: map<int, bool>, gone: set<int>)
    requires vals.Keys !! gone
    ensures vals - gone == vals
  {
  }

  lemma NoFalse(c: Clause, vals: map<int, bool>, bits: set<int>, negative: nat)
    requires negative == 0 ==> forall l :: l in c ==> Val(l, vals) >= 0
    ensures negative == 0 ==> AllConditional(c, vals, bits)
  {
  }

  lemma GuardedOne(done: set<nat>, literals: map<nat, Clause>, vals: map<int, bool>, bits: set<int>, occs: map<Lit,
        seq<nat>>, c: nat)
    requires AllGuarded(done, literals, vals, bits, occs, []) && c in literals
    requires AllConditional(literals[c], vals, bits) || HeldBy(c, literals[c], occs, vals)
    ensures AllGuarded(done + {c}, literals, vals, bits, occs, [])
  {
  }

  lemma NothingGathered(literals: map<nat, Clause>, rs: set<nat>, vals: map<int, bool>)
    ensures AllGuarded({}, literals, vals, {}, map[], []) && ListsOk(map[], literals, rs) && ClauseVars([]) == {}
    ensures NoDuplicates<Lit>([])
  {
  }

  lemma NothingReplayed(f: Formula)
    ensures Reconstructs(f, [], f)
  {
  }

  /** A root-level satisfied clause is not missed. */
  lemma DropSatisfied(literals: map<nat, Clause>, garbage: set<nat>, root: map<int, bool>, c: nat, f0: Formula)
    requires c in literals && HasTrue(literals[c], root) && forall v :: v in root ==> v > 0
    requires Reconstructs(Live(literals, garbage) + Units(root), [], f0)
    ensures Reconstructs(Live(literals, garbage + {c}) + Units(root), [], f0)
  {
    var f, g := Live(literals, garbage) + Units(root), Live(literals, garbage + {c}) + Units(root);
    forall m: Model | Models(m, g)
      ensures Models(Replay([], m), f0)
    {
      ModelsUnion(m, Live(literals, garbage + {c}), Units(root));
      AgreesUnits(m, root);
      var l :| l in literals[c] && Val(l, root) > 0;
      AgreesTrue(m, root, l);
      assert l in Lits(literals[c]) && True(l, m);
      assert f <= g + {Lits(literals[c])};
      assert Models(m, f);
      assert Replay([], m) == m;
    }
  }

  /** The witness cubes contain neither frozen nor root-level assigned variables. */
  ghost predicate NeverFrozen(es: seq<Entry>, frozen: set<int>, root: map<int, bool>) {
    forall e, l :: e in es && l in e.cube ==> Var(l) !in frozen && Var(l) !in root
  }

  lemma BlockedReconstructs(literals: map<nat, Clause>, garbage: set<nat>, root: map<int, bool>, c: nat, fs: seq<Entry>,
        es: seq<Entry>,
      f0: Formula, frozen: set<int>)
    requires c in literals
    requires GloballyBlocked(fs, c, literals[c], Live(literals, garbage + {c}) + Units(root), frozen, root)
    requires Reconstructs(Live(literals, garbage) + Units(root), es, f0) && NeverFrozen(es, frozen, root)
    ensures Reconstructs(Live(literals, garbage + {c}) + Units(root), es + fs, f0) && |fs| == 1
    ensures NeverFrozen(es + fs, frozen, root)
  {
    hide Replay, WitnessRedundant;
    var f, g := Live(literals, garbage) + Units(root), Live(literals, garbage + {c}) + Units(root);
    WitnessReconstructs(g, fs[0]);
    assert fs == [fs[0]];
    assert f <= g + {Lits(literals[c])};
    assert Reconstructs(g, fs, f);
    ReconstructsCompose(f0, es, f, fs, g);
  }

  lemma SameElements(a: seq<nat>, b: seq<nat>)
    requires multiset(a) == multiset(b)
    ensures forall c :: c in a ==> c in b
  {
    forall c | c in a
      ensures c in b
    {
      assert c in multiset(a);
    }
  }

  /** One clause was removed with a witness that contains one of its literals and
      neither frozen nor root-level assigned variables. */
  ghost predicate GloballyBlocked(es: seq<Entry>, c: nat, clause: Clause, f: Formula, frozen: set<int>, root: map<int,
        bool>) {
    && |es| == 1 && es[0].id == c && es[0].clause == clause && WitnessRedundant(f, es[0])
    && forall l :: l in es[0].cube ==> Var(l) !in frozen && Var(l) !in root
  }

  lemma PrefixKept(conditional: seq<Lit>, l: Lit, next: nat)
    requires next <= |conditional|
    ensures (conditional + [l])[..next] == conditional[..next]
  {
  }

  lemma LongerPrefix(conditional: seq<Lit>, next: nat)
    requires next < |conditional|
    ensures conditional[..next + 1] == conditional[..next] + [conditional[next]]
  {
  }

  lemma PrefixOf(os: seq<nat>, j: nat)
    requires j < |os|
    ensures os[..j + 1] == os[..j] + [os[j]]
  {
  }

  lemma NotUnassigned(w: Lit, u: Lit, vals: map<int, bool>)
    requires Val(w, vals) > 0 && Val(u, vals) == 0
    ensures w != u
  {
  }

  lemma SameWatches(occs: map<Lit, seq<nat>>)
    ensures MoreWatches(occs, occs)
  {
  }

  /** Watching one more clause keeps all other facts about watches. */
  lemma WatchesMore(rs: set<nat>, literals: map<nat, Clause>, vals0: map<int, bool>, bits0: set<int>, vals: map<int,
        bool>,
      occs: map<Lit, seq<nat>>, w: Lit, d: nat, u: Lit)
    requires AllGuarded(rs, literals, vals0, bits0, occs, []) && w != u
    ensures var now := occs[w := Listed(occs, w) + [d]];
            && AllGuarded(rs, literals, vals0, bits0, now, []) && Listed(now, u) == Listed(occs, u)
            && forall r :: r in literals && HeldBy(r, literals[r], occs, vals) ==> HeldBy(r, literals[r], now, vals)
  {
    var now := occs[w := Listed(occs, w) + [d]];
    assert MoreWatches(occs, now);
    AllGuardedMore(rs, literals, vals0, bits0, bits0, occs, now);
    forall r | r in literals && HeldBy(r, literals[r], occs, vals)
      ensures HeldBy(r, literals[r], now, vals)
    {
      var x :| x in literals[r] && Val(x, vals) > 0 && r in Listed(occs, x);
      assert r in Listed(now, x);
    }
  }

  /** Only conditional literals are unassigned. */
  lemma MoreBits(conditional0: seq<Lit>, conditional: seq<Lit>, bits0: set<int>, bits: set<int>, vals: map<int, bool>,
        vals0: map<int, bool>,
      unassigned: seq<Lit>)
    requires conditional0 <= conditional && bits0 == ClauseVars(conditional0)
    requires Stacks(vals, vals0, bits, conditional, unassigned)
    ensures bits0 <= bits
  {
    forall l | l in conditional0
      ensures l in conditional
    {
    }
  }

  lemma ConditionalBit(conditional: seq<Lit>, bits: set<int>, l: Lit)
    requires bits == ClauseVars(conditional) && l in conditional
    ensures Var(l) in bits
  {
  }

  lemma AutarkyStays(w: Lit, vals: map<int, bool>, bits: set<int>, conditional: seq<Lit>, l: Lit, unassigned: seq<Lit>,
        vals0: map<int, bool>)
    requires IsAutarky(w, vals, bits) && l in conditional && Stacks(vals, vals0, bits, conditional, unassigned)
    ensures IsAutarky(w, vals - {Var(l)}, bits)
  {
    assert Var(l) in bits;
  }

  lemma NowUnassigned(vals: map<int, bool>, unassigned: seq<Lit>, l: Lit)
    ensures Val(l, vals - {Var(l)}) == 0
    ensures (unassigned + [l])[|unassigned|] == l
  {
  }

  lemma ShrunkBelow(vals: map<int, bool>, vals0: map<int, bool>, bits: set<int>, conditional: seq<Lit>,
        unassigned: seq<Lit>)
    requires Stacks(vals, vals0, bits, conditional, unassigned)
    ensures forall v :: v in vals ==> v in vals0 && vals[v] == vals0[v]
  {
  }

  lemma Reassign(vals: map<int, bool>, vals0: map<int, bool>, bits: set<int>, conditional: seq<Lit>,
        unassigned: seq<Lit>)
    requires Stacks(vals, vals0, bits, conditional, unassigned) && unassigned != []
    ensures var k := |unassigned| - 1;
            Stacks(vals[Var(unassigned[k]) := unassigned[k] > 0], vals0, bits, conditional, unassigned[..k])
  {
    var k := |unassigned| - 1;
    var l := unassigned[k];
    assert unassigned[..k + 1] == unassigned;
    ClauseVarsOfPrefix(unassigned, k);
    assert Val(l, vals0) > 0;
    forall x | x in unassigned[..k]
      ensures Var(x) != Var(l)
    {
      assert x in unassigned && Val(x, vals0) > 0;
    }
  }

  lemma AllReassigned(vals: map<int, bool>, vals0: map<int, bool>, bits: set<int>, conditional: seq<Lit>)
    requires Stacks(vals, vals0, bits, conditional, [])
    ensures vals == vals0
  {
    NothingShrunk(vals, vals0);
  }

  lemma NothingShrunk(vals: map<int, bool>, vals0: map<int, bool>)
    requires Shrunk(vals, vals0, [])
    ensures vals == vals0
  {
    var none: seq<Lit> := [];
    assert ClauseVars(none) == {};
    forall v
      ensures v in vals.Keys <==> v in vals0.Keys
    {
      assert v in vals <==> v in vals0;
    }
    SameMap(vals, vals0);
  }

  lemma SameMap(a: map<int, bool>, b: map<int, bool>)
    requires a.Keys == b.Keys && forall v :: v in a.Keys ==> a[v] == b[v]
    ensures a == b
  {
    forall v | v in a.Keys
      ensures a[v] == b[v]
    {
    }
  }

  lemma Unmark(vals0: map<int, bool>, bits: set<int>, conditional: seq<Lit>)
    requires conditional != [] && bits == ClauseVars(conditional) && NoDuplicates(conditional)
    requires forall l :: l in conditional ==> Val(l, vals0) > 0
    ensures var k := |conditional| - 1;
            bits - {Var(conditional[k])} == ClauseVars(conditional[..k]) && NoDuplicates(conditional[..k])
  {
    var k := |conditional| - 1;
    var l := conditional[k];
    assert conditional[..k + 1] == conditional;
    ClauseVarsOfPrefix(conditional, k);
    forall x | x in conditional[..k]
      ensures Var(x) != Var(l)
    {
      assert x in conditional && Val(x, vals0) > 0 && Val(l, vals0) > 0;
    }
  }
}

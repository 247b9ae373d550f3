/** Conditional autarkies: why a clause is globally blocked, and the refinement of
    an assignment into a conditional and an autarky part. */
module Autarky {
  import opened Logic
  import opened Reconstruction
  import opened Clauses

  /** `is_autarky_literal`: true and without the conditional bit. */
  predicate IsAutarky(l: Lit, vals: map<int, bool>, bits: set<int>) {
    Val(l, vals) > 0 && Var(l) !in bits
  }

  /** The negations of all false literals are conditional. */
  ghost predicate AllConditional(c: Clause, vals: map<int, bool>, bits: set<int>) {
    forall l :: l in c && Val(l, vals) < 0 ==> Var(l) in bits
  }

  /** The assignment is split with respect to the clause `c`: the conditional part is
      negated in `c`, the autarky part satisfies every clause that it touches unless
      the conditional part does. */
  ghost predicate Splits(c: Clause, rs: set<nat>, literals: map<nat, Clause>, vals: map<int, bool>, bits: set<int>) {
    && (forall l: Lit :: Val(l, vals) > 0 && Var(l) in bits ==> Neg(l) in c)
    && (forall r :: r in rs && r in literals ==> AllConditional(literals[r], vals, bits) || HasTrue(literals[r], vals))
  }

  /** A split of a part of the assignment in which the conditional part has grown. */
  ghost predicate IsSplit(c: Clause, rs: set<nat>, literals: map<nat, Clause>, vals0: map<int, bool>, bits0: set<int>,
        v: map<int, bool>, b: set<int>) {
    (forall x :: x in v ==> x in vals0 && v[x] == vals0[x]) && bits0 <= b && Splits(c, rs, literals, v, b)
  }

  /** Some split leaves a literal of the clause in the autarky part. */
  ghost predicate Blockable(c: Clause, rs: set<nat>, literals: map<nat, Clause>, vals0: map<int, bool>,
        bits0: set<int>) {
    exists v, b :: IsSplit(c, rs, literals, vals0, bits0, v, b) && HasAutarky(c, v, b)
  }

  ghost predicate HasAutarky(c: Clause, v: map<int, bool>, b: set<int>) {
    exists l :: l in c && IsAutarky(l, v, b)
  }

  ghost predicate Inside(v: map<int, bool>, b: set<int>, vals: map<int, bool>, bits: set<int>) {
    && (forall x :: x in v ==> x in vals && v[x] == vals[x])
    && forall l: Lit :: IsAutarky(l, v, b) ==> IsAutarky(l, vals, bits)
  }

  /** The refined assignment still contains every split: refinement gives up no more
      than it has to. */
  ghost predicate Largest(c: Clause, rs: set<nat>, literals: map<nat, Clause>, vals0: map<int, bool>, bits0: set<int>,
        vals: map<int, bool>, bits: set<int>) {
    forall v, b :: IsSplit(c, rs, literals, vals0, bits0, v, b) ==> Inside(v, b, vals, bits)
  }

  lemma StartLargest(c: Clause, rs: set<nat>, literals: map<nat, Clause>, vals: map<int, bool>, bits: set<int>)
    ensures Largest(c, rs, literals, vals, bits, vals, bits)
  {
  }

  /** A conditional literal that is not negated in the clause is in no split. */
  lemma LargestUnassign(c: Clause, rs: set<nat>, literals: map<nat, Clause>, vals0: map<int, bool>, bits0: set<int>,
      vals: map<int, bool>, bits: set<int>, l: Lit)
    requires Largest(c, rs, literals, vals0, bits0, vals, bits) && Var(l) in bits && Val(l, vals) > 0 && Neg(l) !in c
    ensures Largest(c, rs, literals, vals0, bits0, vals - {Var(l)}, bits)
  {
    forall v, b | IsSplit(c, rs, literals, vals0, bits0, v, b)
      ensures Inside(v, b, vals - {Var(l)}, bits)
    {
      assert Inside(v, b, vals, bits);
      assert Val(l, v) > 0 && Var(l) in b ==> Neg(l) in c;
      assert IsAutarky(l, v, b) ==> IsAutarky(l, vals, bits);
    }
  }

  /** What a clause without true literals falsifies is in the autarky part of no
      split. */
  lemma LargestMark(c: Clause, rs: set<nat>, literals: map<nat, Clause>, vals0: map<int, bool>, bits0: set<int>,
      vals: map<int, bool>, bits: set<int>, d: nat, l: Lit)
    requires Largest(c, rs, literals, vals0, bits0, vals, bits) && d in rs && d in literals && l in literals[d]
    requires !HasTrue(literals[d], vals)
    ensures Largest(c, rs, literals, vals0, bits0, vals, bits + {Var(l)})
  {
    forall v, b | IsSplit(c, rs, literals, vals0, bits0, v, b)
      ensures Inside(v, b, vals, bits + {Var(l)})
    {
      assert Inside(v, b, vals, bits);
      assert forall k :: k in literals[d] && Val(k, v) > 0 ==> Val(k, vals) > 0;
      assert Val(l, v) < 0 ==> Var(l) in b;
      assert Val(l, v) <= 0;
    }
  }

  /** With no autarky literal left the clause is not globally blocked. */
  lemma LargestFails(c: Clause, rs: set<nat>, literals: map<nat, Clause>, vals0: map<int, bool>, bits0: set<int>,
        vals: map<int, bool>, bits: set<int>)
    requires Largest(c, rs, literals, vals0, bits0, vals, bits) && forall l :: l in c ==> !IsAutarky(l, vals, bits)
    ensures !Blockable(c, rs, literals, vals0, bits0)
  {
    forall v, b | IsSplit(c, rs, literals, vals0, bits0, v, b)
      ensures !HasAutarky(c, v, b)
    {
      assert Inside(v, b, vals, bits);
    }
  }

  /** Exactly the autarky part. */
  ghost predicate IsCube(cube: seq<Lit>, vals: map<int, bool>, bits: set<int>) {
    forall l: Lit :: l in cube <==> IsAutarky(l, vals, bits)
  }

  lemma CubeConsistent(cube: seq<Lit>, vals: map<int, bool>, bits: set<int>)
    requires IsCube(cube, vals, bits)
    ensures forall i, j :: 0 <= i < j < |cube| ==> cube[i] != Neg(cube[j])
  {
    forall i, j | 0 <= i < j < |cube|
      ensures cube[i] != Neg(cube[j])
    {
      assert cube[i] in cube && cube[j] in cube;
    }
  }

  /** Making the autarky part true satisfies every clause that was satisfied: where
      it falsifies a literal, another literal is true, and remains so. */
  lemma FlipKeeps(d: Clause, c: Clause, cube: seq<Lit>, vals: map<int, bool>, bits: set<int>, m: Model, n: Model)
    requires AllConditional(d, vals, bits) || HasTrue(d, vals)
    requires forall l: Lit :: Val(l, vals) > 0 && Var(l) in bits ==> Neg(l) in c
    requires IsCube(cube, vals, bits) && SatClause(d, m) && !SatClause(c, m)
    requires forall l :: l in cube ==> True(l, n)
    requires forall k: Lit :: k !in cube && Neg(k) !in cube ==> True(k, n) == True(k, m)
    ensures SatClause(d, n)
  {
    var x :| x in d && True(x, m);
    if Neg(x) in cube {
      assert Val(x, vals) < 0 && Var(x) !in bits;
      var y :| y in d && Val(y, vals) > 0;
      if Var(y) in bits {
        assert Neg(y) in c && !True(Neg(y), m);
        assert y !in cube && Neg(y) !in cube;
      } else {
        assert y in cube;
      }
    } else {
      assert x in cube || True(x, n) == True(x, m);
    }
  }

  /** A clause with an autarky literal may be removed: flipping the autarky part
      repairs every model of the other clauses. */
  lemma AutarkyIsRedundant(literals: map<nat, Clause>, garbage: set<nat>, root: map<int, bool>, vals: map<int, bool>,
        bits: set<int>,
      c: nat, cube: seq<Lit>, l: Lit)
    requires c in literals && Splits(literals[c], literals.Keys - garbage, literals, vals, bits)
    requires IsCube(cube, vals, bits)
    requires l in literals[c] && IsAutarky(l, vals, bits) && vals.Keys !! root.Keys && forall v :: v in root ==> v > 0
    ensures WitnessRedundant(Live(literals, garbage + {c}) + Units(root), Entry(cube, c, literals[c]))
  {
    var f := Live(literals, garbage + {c}) + Units(root);
    CubeConsistent(cube, vals, bits);
    forall m: Model | Models(m, f) && !SatClause(literals[c], m)
      ensures Models(MakeTrue(cube, m), f) && SatClause(literals[c], MakeTrue(cube, m))
    {
      var n := MakeTrue(cube, m);
      MakeTrueElsewhere(cube, m);
      assert l in cube && True(l, n);
      UnitsKept(cube, vals, bits, root, m, n);
      forall d | d in Live(literals, garbage + {c})
        ensures SatLits(d, n)
      {
        var r :| r in literals && r !in garbage + {c} && Lits(literals[r]) == d;
        assert d in f;
        SatLitsOfClause(literals[r], m);
        FlipKeeps(literals[r], literals[c], cube, vals, bits, m, n);
        SatLitsOfClause(literals[r], n);
      }
      ModelsUnion(n, Live(literals, garbage + {c}), Units(root));
    }
  }

  /** Root-level units are not touched. */
  lemma UnitsKept(cube: seq<Lit>, vals: map<int, bool>, bits: set<int>, root: map<int, bool>, m: Model, n: Model)
    requires IsCube(cube, vals, bits) && vals.Keys !! root.Keys && Models(m, Units(root))
    requires forall v :: v in root ==> v > 0
    requires forall k: Lit :: k !in cube && Neg(k) !in cube ==> True(k, n) == True(k, m)
    ensures Models(n, Units(root))
  {
    AgreesUnits(m, root);
    AgreesUnits(n, root);
    forall v | v in root
      ensures (v in n) == root[v]
    {
      var k: Lit := v;
      assert v in root.Keys && v !in vals.Keys;
      assert k !in cube && Neg(k) !in cube;
      assert True(k, n) == True(k, m);
    }
  }

  // ------------------------------------------------------------------- watches

  function Listed(occs: map<Lit, seq<nat>>, l: Lit): seq<nat> {
    if l in occs then occs[l] else []
  }

  /** The clause is watched by one of its true literals. */
  ghost predicate HeldBy(r: nat, c: Clause, occs: map<Lit, seq<nat>>, vals: map<int, bool>) {
    exists w :: w in c && Val(w, vals) > 0 && r in Listed(occs, w)
  }

  /** The clause is watched by a literal that is still to be visited. */
  ghost predicate PendingAt(r: nat, c: Clause, occs: map<Lit, seq<nat>>, pending: seq<Lit>) {
    exists w :: w in c && w in pending && r in Listed(occs, w)
  }

  ghost predicate Guarded(r: nat, c: Clause, vals: map<int, bool>, bits: set<int>, occs: map<Lit, seq<nat>>,
        pending: seq<Lit>) {
    AllConditional(c, vals, bits) || HeldBy(r, c, occs, vals) || PendingAt(r, c, occs, pending)
  }

  ghost predicate AllGuarded(rs: set<nat>, literals: map<nat, Clause>, vals: map<int, bool>, bits: set<int>,
        occs: map<Lit, seq<nat>>, pending: seq<Lit>) {
    forall r :: r in rs && r in literals ==> Guarded(r, literals[r], vals, bits, occs, pending)
  }

  ghost predicate ListsOk(occs: map<Lit, seq<nat>>, literals: map<nat, Clause>, rs: set<nat>) {
    forall l, r :: l in occs && r in occs[l] ==> r in rs && r in literals && l in literals[r]
  }

  lemma ListedOk(occs: map<Lit, seq<nat>>, literals: map<nat, Clause>, rs: set<nat>, l: Lit)
    requires ListsOk(occs, literals, rs)
    ensures forall r :: r in Listed(occs, l) ==> r in rs && r in literals && l in literals[r]
  {
  }

  /** When nothing is pending the assignment is split as far as clauses go. */
  lemma GuardedSplits(rs: set<nat>, literals: map<nat, Clause>, vals: map<int, bool>, bits: set<int>, occs: map<Lit,
        seq<nat>>)
    requires AllGuarded(rs, literals, vals, bits, occs, [])
    ensures forall r :: r in rs && r in literals ==>
      AllConditional(literals[r], vals, bits) || HasTrue(literals[r], vals)
  {
    forall r | r in rs && r in literals
      ensures AllConditional(literals[r], vals, bits) || HasTrue(literals[r], vals)
    {
      assert Guarded(r, literals[r], vals, bits, occs, []);
      if HeldBy(r, literals[r], occs, vals) {
        var w :| w in literals[r] && Val(w, vals) > 0 && r in Listed(occs, w);
      }
    }
  }

  // ---------------------------------------------------------------- refinement

  /** `vals` is `vals0` without the unassigned literals. */
  ghost predicate Shrunk(vals: map<int, bool>, vals0: map<int, bool>, unassigned: seq<Lit>) {
    && (forall v :: v in vals <==> v in vals0 && v !in ClauseVars(unassigned))
    && (forall v :: v in vals ==> vals[v] == vals0[v])
  }

  /** The stacks describe bits and assignment. */
  ghost predicate Stacks(vals: map<int, bool>, vals0: map<int, bool>, bits: set<int>, conditional: seq<Lit>,
        unassigned: seq<Lit>) {
    && Shrunk(vals, vals0, unassigned)
    && NoDuplicates(unassigned)
    && (forall l :: l in unassigned ==> Val(l, vals0) > 0)
    && bits == ClauseVars(conditional)
    && NoDuplicates(conditional)
    && (forall l :: l in conditional ==> Val(l, vals0) > 0)
  }

  /** Conditional literals are still to be processed, or negated in the candidate. */
  ghost predicate Remaining(c: Clause, vals: map<int, bool>, bits: set<int>, conditional: seq<Lit>, next: nat)
    requires next <= |conditional|
  {
    forall l: Lit :: Val(l, vals) > 0 && Var(l) in bits ==> l in conditional[next..] || Neg(l) in c
  }

  lemma StartStacks(vals: map<int, bool>, bits: set<int>, conditional: seq<Lit>, c: Clause)
    requires bits == ClauseVars(conditional) && NoDuplicates(conditional)
    requires forall l :: l in conditional ==> Val(l, vals) > 0
    ensures Stacks(vals, vals, bits, conditional, []) && Remaining(c, vals, bits, conditional, 0)
  {
    assert ClauseVars([]) == {};
    forall l: Lit | Val(l, vals) > 0 && Var(l) in bits
      ensures l in conditional[0..]
    {
      var k :| k in conditional && Var(k) == Var(l);
      assert k == l;
    }
  }

  /** One more conditional literal. */
  lemma MarkConditional(vals: map<int, bool>, vals0: map<int, bool>, bits: set<int>, conditional: seq<Lit>,
        unassigned: seq<Lit>, l: Lit,
      c: Clause, next: nat)
    requires Stacks(vals, vals0, bits, conditional, unassigned) && IsAutarky(l, vals, bits)
    requires next <= |conditional| && Remaining(c, vals, bits, conditional, next)
    ensures Stacks(vals, vals0, bits + {Var(l)}, conditional + [l], unassigned)
    ensures Remaining(c, vals, bits + {Var(l)}, conditional + [l], next)
    ensures Unmarked(vals0, bits + {Var(l)}) + 1 == Unmarked(vals0, bits)
  {
    hide Unmarked, Remaining, NoDuplicates;
    PushDistinct(conditional, bits, l);
    MarkRemaining(vals, bits, conditional, l, c, next);
    UnmarkedLess(vals0, bits, Var(l));
  }

  lemma PushDistinct(conditional: seq<Lit>, bits: set<int>, l: Lit)
    requires bits == ClauseVars(conditional) && NoDuplicates(conditional) && Var(l) !in bits
    ensures NoDuplicates(conditional + [l]) && ClauseVars(conditional + [l]) == bits + {Var(l)}
  {
    var now := conditional + [l];
    assert now[..|conditional|] == conditional && now[..|conditional| + 1] == now;
    ClauseVarsOfPrefix(now, |conditional|);
    forall i, j | 0 <= i < j < |now|
      ensures now[i] != now[j]
    {
      if j == |conditional| {
        assert now[i] in conditional && Var(now[i]) in bits;
      }
    }
  }

  lemma MarkRemaining(vals: map<int, bool>, bits: set<int>, conditional: seq<Lit>, l: Lit, c: Clause, next: nat)
    requires next <= |conditional| && Remaining(c, vals, bits, conditional, next) && Val(l, vals) > 0
    ensures Remaining(c, vals, bits + {Var(l)}, conditional + [l], next)
  {
    var now := conditional + [l];
    assert now[next..] == conditional[next..] + [l];
    forall k: Lit | Val(k, vals) > 0 && Var(k) in bits + {Var(l)}
      ensures k in now[next..] || Neg(k) in c
    {
      if Var(k) == Var(l) {
        assert k == l;
      }
    }
  }

  ghost function Unmarked(vals0: map<int, bool>, bits: set<int>): nat {
    |vals0.Keys - bits|
  }

  lemma UnmarkedLess(vals0: map<int, bool>, bits: set<int>, v: int)
    requires v in vals0 && v !in bits
    ensures Unmarked(vals0, bits + {v}) + 1 == Unmarked(vals0, bits)
  {
    assert vals0.Keys - (bits + {v}) == (vals0.Keys - bits) - {v};
  }

  /** A conditional literal that is negated in the candidate stays. */
  lemma KeepConditional(c: Clause, vals: map<int, bool>, bits: set<int>, conditional: seq<Lit>, next: nat)
    requires next < |conditional| && Remaining(c, vals, bits, conditional, next) && Neg(conditional[next]) in c
    ensures Remaining(c, vals, bits, conditional, next + 1)
  {
    assert conditional[next..] == [conditional[next]] + conditional[next + 1..];
  }

  /** Any other conditional literal is unassigned. */
  lemma Unassign(c: Clause, vals: map<int, bool>, vals0: map<int, bool>, bits: set<int>, conditional: seq<Lit>,
        unassigned: seq<Lit>, next: nat)
    requires next < |conditional| && Remaining(c, vals, bits, conditional, next)
    requires Stacks(vals, vals0, bits, conditional, unassigned)
    requires forall l :: l in unassigned ==> l in conditional[..next]
    ensures var l := conditional[next];
            && Stacks(vals - {Var(l)}, vals0, bits, conditional, unassigned + [l])
            && Remaining(c, vals - {Var(l)}, bits, conditional, next + 1)
            && (forall k :: k in unassigned + [l] ==> k in conditional[..next + 1]) && Val(l, vals) > 0
  {
    var l := conditional[next];
    var now := unassigned + [l];
    assert l in conditional && conditional[next..] == [l] + conditional[next + 1..];
    assert conditional[..next + 1] == conditional[..next] + [l];
    assert now[..|unassigned|] == unassigned && now[..|unassigned| + 1] == now;
    ClauseVarsOfPrefix(now, |unassigned|);
    NotEarlier(conditional, next);
    forall k | k in unassigned
      ensures Var(k) != Var(l)
    {
      assert k in conditional[..next];
    }
    assert Var(l) in vals0 && Var(l) !in ClauseVars(unassigned);
  }

  lemma NotEarlier(s: seq<Lit>, i: nat)
    requires i < |s| && NoDuplicates(s)
    ensures s[i] !in s[..i]
  {
  }

  /** What was watched by the literal is now pending. */
  lemma GuardedUnassign(rs: set<nat>, literals: map<nat, Clause>, vals: map<int, bool>, bits: set<int>, occs: map<Lit,
        seq<nat>>, l: Lit)
    requires AllGuarded(rs, literals, vals, bits, occs, []) && Val(l, vals) > 0
    ensures AllGuarded(rs, literals, vals - {Var(l)}, bits, occs, [l])
  {
    var now := vals - {Var(l)};
    forall r | r in rs && r in literals
      ensures Guarded(r, literals[r], now, bits, occs, [l])
    {
      assert Guarded(r, literals[r], vals, bits, occs, []);
      if HeldBy(r, literals[r], occs, vals) {
        var w :| w in literals[r] && Val(w, vals) > 0 && r in Listed(occs, w);
        if w == l {
          assert w in [l];
        } else {
          assert Val(w, now) > 0;
        }
      }
    }
  }

  /** The clauses not yet visited may be unguarded. */
  ghost predicate Visiting(rs: set<nat>, literals: map<nat, Clause>, vals: map<int, bool>, bits: set<int>,
        occs: map<Lit, seq<nat>>, rest: seq<nat>) {
    forall r :: r in rs && r in literals ==> Guarded(r, literals[r], vals, bits, occs, []) || r in rest
  }

  lemma StartVisiting(rs: set<nat>, literals: map<nat, Clause>, vals: map<int, bool>, bits: set<int>, occs: map<Lit,
        seq<nat>>, l: Lit)
    requires AllGuarded(rs, literals, vals, bits, occs, [l])
    ensures Visiting(rs, literals, vals, bits, occs, Listed(occs, l))
  {
    forall r | r in rs && r in literals
      ensures Guarded(r, literals[r], vals, bits, occs, []) || r in Listed(occs, l)
    {
      assert Guarded(r, literals[r], vals, bits, occs, [l]);
      if PendingAt(r, literals[r], occs, [l]) {
        var w :| w in literals[r] && w in [l] && r in Listed(occs, w);
      }
    }
  }

  /** More watches and more conditional bits, and the first clause is done. */
  lemma VisitingStep(rs: set<nat>, literals: map<nat, Clause>, vals: map<int, bool>, bits0: set<int>, bits: set<int>,
      occs0: map<Lit, seq<nat>>, occs: map<Lit, seq<nat>>, os: seq<nat>, j: nat)
    requires j < |os| && Visiting(rs, literals, vals, bits0, occs0, os[j..]) && bits0 <= bits
    requires MoreWatches(occs0, occs)
    requires os[j] in literals ==>
      AllConditional(literals[os[j]], vals, bits) || HeldBy(os[j], literals[os[j]], occs, vals)
    ensures Visiting(rs, literals, vals, bits, occs, os[j + 1..])
  {
    assert os[j..] == [os[j]] + os[j + 1..];
    forall r | r in rs && r in literals
      ensures Guarded(r, literals[r], vals, bits, occs, []) || r in os[j + 1..]
    {
      if r != os[j] && r !in os[j + 1..] {
        assert Guarded(r, literals[r], vals, bits0, occs0, []);
        GuardedMore(r, literals[r], vals, bits0, bits, occs0, occs);
      }
    }
  }

  ghost predicate MoreWatches(occs0: map<Lit, seq<nat>>, occs: map<Lit, seq<nat>>) {
    forall l, r :: r in Listed(occs0, l) ==> r in Listed(occs, l)
  }

  lemma GuardedMore(r: nat, c: Clause, vals: map<int, bool>, bits0: set<int>, bits: set<int>, occs0: map<Lit, seq<nat>>,
        occs: map<Lit, seq<nat>>)
    requires Guarded(r, c, vals, bits0, occs0, []) && bits0 <= bits && MoreWatches(occs0, occs)
    ensures Guarded(r, c, vals, bits, occs, [])
  {
    if HeldBy(r, c, occs0, vals) {
      var w :| w in c && Val(w, vals) > 0 && r in Listed(occs0, w);
      assert r in Listed(occs, w);
    }
  }

  lemma AllGuardedMore(rs: set<nat>, literals: map<nat, Clause>, vals: map<int, bool>, bits0: set<int>, bits: set<int>,
      occs0: map<Lit, seq<nat>>, occs: map<Lit, seq<nat>>)
    requires AllGuarded(rs, literals, vals, bits0, occs0, []) && bits0 <= bits && MoreWatches(occs0, occs)
    ensures AllGuarded(rs, literals, vals, bits, occs, [])
  {
    forall r | r in rs && r in literals
      ensures Guarded(r, literals[r], vals, bits, occs, [])
    {
      assert Guarded(r, literals[r], vals, bits0, occs0, []);
      GuardedMore(r, literals[r], vals, bits0, bits, occs0, occs);
    }
  }

  lemma ListsOkMore(occs: map<Lit, seq<nat>>, literals: map<nat, Clause>, rs: set<nat>, c: nat)
    requires ListsOk(occs, literals, rs)
    ensures ListsOk(occs, literals, rs + {c})
  {
  }

  lemma FewerSplits(c: Clause, rs: set<nat>, fewer: set<nat>, literals: map<nat, Clause>, vals: map<int, bool>,
        bits: set<int>)
    requires Splits(c, rs, literals, vals, bits) && fewer <= rs
    ensures Splits(c, fewer, literals, vals, bits)
  {
  }

  /** Watch a clause. */
  lemma AddWatch(occs: map<Lit, seq<nat>>, literals: map<nat, Clause>, rs: set<nat>, w: Lit, d: nat, vals: map<int,
        bool>)
    requires ListsOk(occs, literals, rs) && d in rs && d in literals && w in literals[d]
    ensures var now := occs[w := Listed(occs, w) + [d]];
            && ListsOk(now, literals, rs)
            && MoreWatches(occs, now)
            && (Val(w, vals) > 0 ==> HeldBy(d, literals[d], now, vals))
  {
    var now := occs[w := Listed(occs, w) + [d]];
    assert d in Listed(now, w);
    forall l, r | r in Listed(occs, l)
      ensures r in Listed(now, l)
    {
    }
    forall l, r | l in now && r in now[l]
      ensures r in rs && r in literals && l in literals[r]
    {
      if !(l == w && r == d) {
        assert r in Listed(occs, l);
      }
    }
  }

  /** Dropping watches of an unassigned literal guards no less. */
  lemma DropWatches(rs: set<nat>, literals: map<nat, Clause>, vals: map<int, bool>, bits: set<int>, occs: map<Lit,
        seq<nat>>, u: Lit, kept: seq<nat>)
    requires AllGuarded(rs, literals, vals, bits, occs, []) && Val(u, vals) <= 0
    ensures AllGuarded(rs, literals, vals, bits, occs[u := kept], [])
  {
    forall r | r in rs && r in literals
      ensures Guarded(r, literals[r], vals, bits, occs[u := kept], [])
    {
      assert Guarded(r, literals[r], vals, bits, occs, []);
      if HeldBy(r, literals[r], occs, vals) {
        var w :| w in literals[r] && Val(w, vals) > 0 && r in Listed(occs, w);
        assert w != u && r in Listed(occs[u := kept], w);
      }
    }
  }

  /** A clause dropped from the list of `u` is watched by another true literal. */
  lemma DropMoved(rs: set<nat>, literals: map<nat, Clause>, vals0: map<int, bool>, bits0: set<int>, vals: map<int,
        bool>,
      occs: map<Lit, seq<nat>>, u: Lit, kept: seq<nat>)
    requires AllGuarded(rs, literals, vals0, bits0, occs, []) && Val(u, vals) <= 0
    requires forall v :: v in vals ==> v in vals0 && vals[v] == vals0[v]
    requires forall r :: r in Listed(occs, u) && r !in kept && r in literals ==> HeldBy(r, literals[r], occs, vals)
    ensures AllGuarded(rs, literals, vals0, bits0, occs[u := kept], [])
  {
    var now := occs[u := kept];
    forall r | r in rs && r in literals
      ensures Guarded(r, literals[r], vals0, bits0, now, [])
    {
      assert Guarded(r, literals[r], vals0, bits0, occs, []);
      if HeldBy(r, literals[r], occs, vals0) {
        var w :| w in literals[r] && Val(w, vals0) > 0 && r in Listed(occs, w);
        if w != u {
          assert r in Listed(now, w);
        } else if r in kept {
          assert r in Listed(now, u);
        } else {
          var x :| x in literals[r] && Val(x, vals) > 0 && r in Listed(occs, x);
          assert x != u && r in Listed(now, x) && Val(x, vals0) > 0;
        }
      }
    }
  }

  lemma VisitedAll(rs: set<nat>, literals: map<nat, Clause>, vals: map<int, bool>, bits: set<int>, occs: map<Lit,
        seq<nat>>, rest: seq<nat>)
    requires Visiting(rs, literals, vals, bits, occs, rest) && rest == []
    ensures AllGuarded(rs, literals, vals, bits, occs, [])
  {
  }

  // ------------------------------------------------ the initial conditional part

  /** Some literal with variable `v` is false. */
  ghost predicate FalseIn(c: Clause, vals: map<int, bool>, v: int) {
    exists l :: l in c && Var(l) == v && Val(l, vals) < 0
  }

  /** Initially conditional are just the variables of false literals in clauses
      without a true one. */
  ghost predicate Initial(rs: set<nat>, literals: map<nat, Clause>, vals: map<int, bool>, bits: set<int>) {
    forall v :: v in bits <==> Forced(rs, literals, vals, v)
  }

  ghost predicate Forced(rs: set<nat>, literals: map<nat, Clause>, vals: map<int, bool>, v: int) {
    exists r :: r in rs && r in literals && !HasTrue(literals[r], vals) && FalseIn(literals[r], vals, v)
  }

  /** One more clause is gathered. */
  lemma InitialMore(rs: set<nat>, literals: map<nat, Clause>, vals: map<int, bool>, bits: set<int>, c: nat,
        more: set<int>)
    requires c in literals && Initial(rs, literals, vals, bits) && bits <= more
    requires HasTrue(literals[c], vals) ==> more == bits
    requires !HasTrue(literals[c], vals) ==> AllConditional(literals[c], vals, more)
    requires forall v :: v in more && v !in bits ==> FalseIn(literals[c], vals, v)
    ensures Initial(rs + {c}, literals, vals, more)
  {
    hide HasTrue;
    forall v
      ensures v in more <==> Forced(rs + {c}, literals, vals, v)
    {
      if v in more && v !in bits {
        assert c in rs + {c} && FalseIn(literals[c], vals, v);
      } else if v in bits {
        var r :| r in rs && r in literals && !HasTrue(literals[r], vals) && FalseIn(literals[r], vals, v);
        assert r in rs + {c};
      }
    }
  }

  /** The initial conditional part is no restriction: it is part of every split of the
      assignment, as long as only clauses with true literals have been dropped. */
  lemma InitialIsForced(c: Clause, rs: set<nat>, rs0: set<nat>, literals: map<nat, Clause>, vals0: map<int, bool>,
        bits0: set<int>)
    requires Initial(rs0, literals, vals0, bits0)
    requires forall r :: r in rs0 && r in literals && !HasTrue(literals[r], vals0) ==> r in rs
    ensures Blockable(c, rs, literals, vals0, bits0) <==> Blockable(c, rs, literals, vals0, {})
  {
    hide IsSplit, HasAutarky, Initial, HasTrue;
    if Blockable(c, rs, literals, vals0, bits0) {
      var v, b :| IsSplit(c, rs, literals, vals0, bits0, v, b) && HasAutarky(c, v, b);
      WithoutForced(c, rs, literals, vals0, bits0, v, b);
    }
    if Blockable(c, rs, literals, vals0, {}) {
      var v, b :| IsSplit(c, rs, literals, vals0, {}, v, b) && HasAutarky(c, v, b);
      WithForced(c, rs, rs0, literals, vals0, bits0, v, b);
    }
  }

  lemma WithoutForced(c: Clause, rs: set<nat>, literals: map<nat, Clause>, vals0: map<int, bool>, bits0: set<int>,
        v: map<int, bool>, b: set<int>)
    requires IsSplit(c, rs, literals, vals0, bits0, v, b)
    ensures IsSplit(c, rs, literals, vals0, {}, v, b)
  {
  }

  lemma WithForced(c: Clause, rs: set<nat>, rs0: set<nat>, literals: map<nat, Clause>, vals0: map<int, bool>,
        bits0: set<int>, v: map<int, bool>, b: set<int>)
    requires Initial(rs0, literals, vals0, bits0)
    requires forall r :: r in rs0 && r in literals && !HasTrue(literals[r], vals0) ==> r in rs
    requires IsSplit(c, rs, literals, vals0, {}, v, b) && HasAutarky(c, v, b)
    ensures IsSplit(c, rs, literals, vals0, bits0, v, b + bits0) && HasAutarky(c, v, b + bits0)
  {
    forall x | x in bits0 && x in v
      ensures x in b
    {
      ForcedIn(rs, rs0, literals, vals0, c, v, b, x);
    }
    forall r | r in rs && r in literals && !HasTrue(literals[r], v)
      ensures AllConditional(literals[r], v, b + bits0)
    {
      assert AllConditional(literals[r], v, b);
    }
    var l :| l in c && IsAutarky(l, v, b);
    assert IsAutarky(l, v, b + bits0);
  }

  lemma ForcedIn(rs: set<nat>, rs0: set<nat>, literals: map<nat, Clause>, vals0: map<int, bool>, c: Clause,
        v: map<int, bool>, b: set<int>, x: int)
    requires forall r :: r in rs0 && r in literals && !HasTrue(literals[r], vals0) ==> r in rs
    requires Forced(rs0, literals, vals0, x) && x in v && IsSplit(c, rs, literals, vals0, {}, v, b)
    ensures x in b
  {
    var r :| r in rs0 && r in literals && !HasTrue(literals[r], vals0) && FalseIn(literals[r], vals0, x);
    var l :| l in literals[r] && Var(l) == x && Val(l, vals0) < 0;
    assert Val(l, v) < 0;
    assert !HasTrue(literals[r], v);
  }
}

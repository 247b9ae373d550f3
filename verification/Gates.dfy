/** Searching for gates: equivalences, AND, if-then-else and parity gates. */
module Gates {
  import opened Logic
  import opened Clauses
  import opened Elimination
  import opened Elim
  import opened GateLogic

  // ------------------------------------------------------------ binary clauses

  function Marked(marks: map<int, int>, l: Lit): int {
    if Var(l) !in marks then 0 else if l > 0 then marks[Var(l)] else 0 - marks[Var(l)]
  }

  /** The clause is binary up to falsified literals. */
  ghost predicate BinaryIn(c: Clause, first: Lit, second: Lit, vals: map<int, bool>) {
    Actual(c, vals) == {first, second} && first != second && !HasTrue(c, vals)
  }

  /** `second_literal_in_binary_clause`. */
  method SecondLiteral(e: Eliminator, c: nat, first: Lit, ghost p: Lit) returns (second: Option<Lit>)
    requires e.Valid() && c in e.literals && first in e.literals[c] && Val(first, e.vals) == 0
    modifies e`garbage
    ensures e.Valid() && Moves(old(e.S()), e.S(), p) && NewGarbage(old(e.garbage), e.garbage, e.literals, e.vals)
    ensures second.Some? ==> BinaryIn(e.literals[c], first, second.value, e.vals) && e.garbage == old(e.garbage)
    ensures forall x: Lit :: BinaryIn(e.literals[c], first, x, e.vals) ==> second == Some(x)
  {
    hide Moves, Connected, NewGarbage;
    var lits := e.literals[c];
    ClauseFacts(e.literals, e.garbage, e.occs, e.vars, e.next, c);
    MovesNot(e.S(), p);
    NoNewGarbage(e.garbage, e.literals, e.vals);
    second := None;
    var many := false;
    for k := 0 to |lits|
      invariant e.garbage == old(e.garbage) && !many
      invariant second.Some? ==> second.value in lits[..k] && second.value != first && Val(second.value, e.vals) == 0
      invariant forall l :: l in lits[..k] ==> l == first || second == Some(l) || Val(l, e.vals) < 0
    {
      PrefixStep(lits, k);
      if lits[k] == first {
        continue;
      }
      if Val(lits[k], e.vals) < 0 {
        continue;
      }
      if Val(lits[k], e.vals) > 0 {
        e.MarkSatisfied(c, lits[k], p);
        OneNewGarbage(old(e.garbage), c, lits[k], e.literals, e.vals);
        assert HasTrue(lits, e.vals);
        return None;
      }
      if second.Some? {
        ManyUnassigned(lits, first, second.value, lits[k], e.vals);
        return None;
      }
      second := Some(lits[k]);
    }
    assert lits[..|lits|] == lits;
    OnlySecond(lits, first, second, e.vals);
  }

  lemma ManyUnassigned(c: Clause, first: Lit, x: Lit, y: Lit, vals: map<int, bool>)
    requires x in c && y in c && x != first && y != first && x != y && Val(x, vals) == 0 && Val(y, vals) == 0
    ensures forall z :: !BinaryIn(c, first, z, vals)
  {
    assert x in Actual(c, vals) && y in Actual(c, vals);
  }

  lemma OnlySecond(c: Clause, first: Lit, second: Option<Lit>, vals: map<int, bool>)
    requires first in c && Val(first, vals) == 0
    requires second.Some? ==> second.value in c && second.value != first && Val(second.value, vals) == 0
    requires forall l :: l in c ==> l == first || second == Some(l) || Val(l, vals) < 0
    ensures second.Some? ==> BinaryIn(c, first, second.value, vals)
    ensures forall x: Lit :: BinaryIn(c, first, x, vals) ==> second == Some(x)
  {
    forall x: Lit | BinaryIn(c, first, x, vals)
      ensures second == Some(x)
    {
      assert x in Actual(c, vals);
    }
  }

  /** A clause that was binary with `first` and `x` when `x` was marked; it has been
      dropped only if one of the two became true. */
  ghost predicate Witness(r: nat, literals: map<nat, Clause>, garbage: set<nat>, vals: map<int, bool>, first: Lit,
        x: Lit) {
    && r in literals && first in literals[r] && x in literals[r] && x != first
    && (forall l :: l in literals[r] && l != first && l != x ==> Val(l, vals) < 0)
    && (r in garbage ==> HasTrue(literals[r], vals))
  }

  ghost predicate MarkWitness(literals: map<nat, Clause>, garbage: set<nat>, vals: map<int, bool>, os: seq<nat>, k: nat,
        first: Lit, x: Lit)
    requires k <= |os|
  {
    exists i :: 0 <= i < k && Witness(os[i], literals, garbage, vals, first, x)
  }

  /** Marks are signs, saved on the stack, and come from binary clauses. */
  ghost predicate MarksOk(marks: map<int, int>, stack: seq<Lit>, literals: map<nat, Clause>, garbage: set<nat>,
        vals: map<int, bool>,
      os: seq<nat>, k: nat, first: Lit)
    requires k <= |os|
  {
    && (forall v :: v in marks ==> v > 0 && (marks[v] == 1 || marks[v] == -1) && v in ClauseVars(stack))
    && (forall x: Lit :: Marked(marks, x) == 1 ==> MarkWitness(literals, garbage, vals, os, k, first, x))
  }

  lemma WitnessLive(r: nat, literals: map<nat, Clause>, garbage: set<nat>, vals: map<int, bool>, first: Lit, x: Lit)
    requires Witness(r, literals, garbage, vals, first, x) && Val(first, vals) == 0 && Val(x, vals) == 0
    ensures r !in garbage && BinaryIn(literals[r], first, x, vals)
  {
    forall l | l in literals[r]
      ensures Val(l, vals) <= 0
    {
    }
  }

  lemma WitnessKept(r: nat, s: State, t: State, first: Lit, x: Lit, p: Lit)
    requires Witness(r, s.literals, s.garbage, s.vals, first, x) && Keeps(s, t, p)
    requires NewGarbage(s.garbage, t.garbage, t.literals, t.vals)
    ensures Witness(r, t.literals, t.garbage, t.vals, first, x)
  {
    forall l | l in t.literals[r] && l != first && l != x
      ensures Val(l, t.vals) < 0
    {
      assert Val(l, s.vals) < 0;
    }
    if r in s.garbage {
      var l :| l in s.literals[r] && Val(l, s.vals) > 0;
      assert Val(l, t.vals) > 0;
    }
  }

  lemma MarksKept(marks: map<int, int>, stack: seq<Lit>, s: State, t: State, os: seq<nat>, k: nat, first: Lit, p: Lit)
    requires k <= |os| && MarksOk(marks, stack, s.literals, s.garbage, s.vals, os, k, first) && Keeps(s, t, p)
    requires NewGarbage(s.garbage, t.garbage, t.literals, t.vals)
    ensures MarksOk(marks, stack, t.literals, t.garbage, t.vals, os, k, first)
  {
    forall x: Lit | Marked(marks, x) == 1
      ensures MarkWitness(t.literals, t.garbage, t.vals, os, k, first, x)
    {
      var i :| 0 <= i < k && Witness(os[i], s.literals, s.garbage, s.vals, first, x);
      WitnessKept(os[i], s, t, first, x, p);
    }
  }

  lemma MarksLater(marks: map<int, int>, stack: seq<Lit>, literals: map<nat, Clause>, garbage: set<nat>, vals: map<int,
        bool>,
      os: seq<nat>, k: nat, j: nat, first: Lit)
    requires k <= j <= |os| && MarksOk(marks, stack, literals, garbage, vals, os, k, first)
    ensures MarksOk(marks, stack, literals, garbage, vals, os, j, first)
  {
    forall x: Lit | Marked(marks, x) == 1
      ensures MarkWitness(literals, garbage, vals, os, j, first, x)
    {
      assert MarkWitness(literals, garbage, vals, os, k, first, x);
    }
  }

  /** A new mark. */
  lemma MarkOne(marks: map<int, int>, stack: seq<Lit>, literals: map<nat, Clause>, garbage: set<nat>, vals: map<int,
        bool>,
      os: seq<nat>, k: nat, first: Lit, second: Lit)
    requires k < |os| && MarksOk(marks, stack, literals, garbage, vals, os, k, first) && Marked(marks, second) == 0
    requires os[k] in literals && os[k] !in garbage && BinaryIn(literals[os[k]], first, second, vals)
    ensures MarksOk(marks[Var(second) := if second > 0 then 1 else -1], stack + [second], literals, garbage, vals, os,
      k + 1, first)
  {
    var now := marks[Var(second) := if second > 0 then 1 else -1];
    var c := literals[os[k]];
    assert first in Actual(c, vals) && second in Actual(c, vals);
    assert Witness(os[k], literals, garbage, vals, first, second) by {
      forall l | l in c && l != first && l != second
        ensures Val(l, vals) < 0
      {
        assert l !in Actual(c, vals);
      }
    }
    forall x: Lit | Marked(now, x) == 1
      ensures MarkWitness(literals, garbage, vals, os, k + 1, first, x)
    {
      if x != second {
        assert Var(x) != Var(second);
        assert MarkWitness(literals, garbage, vals, os, k, first, x);
      }
    }
    assert ClauseVars(stack + [second]) == ClauseVars(stack) + {Var(second)} by {
      ClauseVarsOfPrefix(stack + [second], |stack|);
      assert (stack + [second])[..|stack|] == stack && (stack + [second])[..|stack| + 1] == stack + [second];
    }
  }

  /** The unit that two binary clauses imply. */
  lemma HyperUnary(s: State, c: nat, d: nat, first: Lit, x: Lit, y: Lit, unit: Lit)
    requires c in s.literals && d in s.literals && c !in s.garbage && d !in s.garbage
    requires forall v :: v in s.vals ==> v > 0
    requires BinaryIn(s.literals[c], x, unit, s.vals) && BinaryIn(s.literals[d], y, unit, s.vals) && y == Neg(x)
    ensures Implied(F(s), {unit})
  {
    NoTrue(s.literals[c], s.vals);
    NoTrue(s.literals[d], s.vals);
    ClauseImpliesActual(s, c);
    ClauseImpliesActual(s, d);
    forall m: Model | Models(m, F(s))
      ensures SatLits({unit}, m)
    {
      var k :| k in Actual(s.literals[c], s.vals) && True(k, m);
      var l :| l in Actual(s.literals[d], s.vals) && True(l, m);
      assert unit in {unit};
    }
  }

  lemma NoTrue(c: Clause, vals: map<int, bool>)
    requires !HasTrue(c, vals)
    ensures forall l :: l in c ==> Val(l, vals) <= 0
  {
  }

  /** Assign a unit and propagate it. */
  method AssignAndPropagate(e: Eliminator, unit: Lit, ghost p: Lit)
    requires e.Valid() && Val(unit, e.vals) == 0 && Var(unit) in e.vars && Implied(F(e.S()), {unit})
    modifies e`garbage, e`vals, e`unsat
    ensures e.Valid() && Moves(old(e.S()), e.S(), p) && NewGarbage(old(e.garbage), e.garbage, e.literals, e.vals)
    ensures Val(unit, e.vals) > 0
    ensures !e.unsat && Clean(old(e.literals), old(e.garbage), old(e.vals), p) ==>
      Clean(e.literals, e.garbage, e.vals, p)
  {
    hide Moves, Connected, Implied, Dropped, NewGarbage, Clean, Free;
    e.AssignUnit(unit, p);
    ghost var s1 := e.S();
    e.Propagate(unit, p);
    MovesFacts(s1, e.S(), p);
    MovesTrans(old(e.S()), s1, e.S(), p);
    MovesFacts(old(e.S()), e.S(), p);
    if !e.unsat && Clean(old(e.literals), old(e.garbage), old(e.vals), p) {
      StillClean(e.literals, old(e.garbage), e.garbage, e.occs, e.vars, e.next, old(e.vals), s1.vals, e.vals, unit, p);
    }
  }

  /** No clause with the pivot is satisfied at root level. */
  ghost predicate Clean(literals: map<nat, Clause>, garbage: set<nat>, vals: map<int, bool>, p: Lit) {
    forall r :: r in literals && r !in garbage && (p in literals[r] || Neg(p) in literals[r]) ==>
      !HasTrue(literals[r], vals)
  }

  lemma StillClean(literals: map<nat, Clause>, garbage0: set<nat>, garbage: set<nat>, occs: map<Lit, seq<nat>>,
        vars: set<int>, next: nat,
      vals0: map<int, bool>, vals1: map<int, bool>, vals: map<int, bool>, unit: Lit, p: Lit)
    requires Connected(literals, garbage, occs, vars, next) && garbage0 <= garbage
    requires Clean(literals, garbage0, vals0, p)
    requires vals1 == SetFalse(Neg(unit), vals0) && Val(unit, vals0) == 0
    requires forall l :: Val(l, vals) > 0 && (l == unit || Val(l, vals1) == 0) ==> Dropped(l, occs, garbage)
    requires forall v :: v in vals1 ==> v in vals && vals[v] == vals1[v]
    ensures Clean(literals, garbage, vals, p)
  {
    forall r, l | r in literals && r !in garbage && (p in literals[r] || Neg(p) in literals[r]) && l in literals[r]
      ensures Val(l, vals) <= 0
    {
      assert !HasTrue(literals[r], vals0);
      assert Val(l, vals0) <= 0;
      assert l in occs && r in occs[l];
      assert Val(l, vals) > 0 ==> Dropped(l, occs, garbage);
    }
  }

  /** All that a gate search keeps: the clauses, and that none with the pivot is
      satisfied unless the empty clause was found. */
  ghost predicate Searched(s: State, t: State, p: Lit) {
    && Keeps(s, t, p) && t.literals == s.literals
    && (!t.unsat && Clean(s.literals, s.garbage, s.vals, p) ==> Clean(t.literals, t.garbage, t.vals, p))
  }

  lemma SearchedNot(s: State, p: Lit)
    ensures Searched(s, s, p)
  {
    MovesNot(s, p);
  }

  lemma SearchedTrans(s: State, t: State, u: State, p: Lit)
    requires Searched(s, t, p) && Searched(t, u, p)
    ensures Searched(s, u, p)
  {
    hide Keeps, Clean;
    KeepsTrans(s, t, u, p);
    KeepsFacts(t, u, p);
  }

  lemma KeepsFacts(s: State, t: State, p: Lit)
    requires Keeps(s, t, p)
    ensures s.garbage <= t.garbage && (s.unsat ==> t.unsat)
    ensures forall v :: v in s.vals ==> v in t.vals && t.vals[v] == s.vals[v]
  {
  }

  /** Dropping a satisfied clause, or a copy of another one with the pivot. */
  lemma SearchedGarbage(s: State, t: State, p: Lit)
    requires Keeps(s, t, p) && t.literals == s.literals && t.vals == s.vals
    ensures Searched(s, t, p)
  {
  }

  /** An actual copy of a binary clause that stays. */
  lemma DropCopy(s: State, c: nat, d: nat, first: Lit, second: Lit, p: Lit)
    requires c in s.literals && d in s.literals && c != d && c !in s.garbage && d !in s.garbage
    requires (p == first || p == Neg(first))
    requires BinaryIn(s.literals[c], first, second, s.vals) && BinaryIn(s.literals[d], first, second, s.vals)
    requires forall v :: v in s.vals ==> v > 0
    ensures Keeps(s, s.(garbage := s.garbage + {c}), p)
  {
    var t := s.(garbage := s.garbage + {c});
    NoTrue(s.literals[d], s.vals);
    ClauseImpliesActual(t, d);
    GarbageFormula(s.literals, s.garbage, s.vals, s.unsat, c);
    forall m: Model | Models(m, F(t))
      ensures SatLits(Lits(s.literals[c]), m)
    {
      var l :| l in Actual(s.literals[d], s.vals) && True(l, m);
      assert l in Actual(s.literals[c], s.vals);
      assert l in Lits(s.literals[c]);
    }
    assert first in Actual(s.literals[c], s.vals);
    forall m: Model | Models(m, Without(F(t), p))
      ensures Models(m, Without(F(s), p))
    {
      assert first in Lits(s.literals[c]);
      forall e | e in Without(F(s), p)
        ensures e in Without(F(t), p)
      {
      }
    }
  }

  /** `mark_binary_literals`: mark the second literals of binary clauses with
      `first`; two that clash make `first` a unit. */
  method MarkBinaryLiterals(e: Eliminator, first: Lit, ghost p: Lit)
    requires e.Valid() && first in e.occs && (p == first || p == Neg(first)) && !e.unsat && Val(first, e.vals) == 0
    requires e.marks == map[] && e.markedStack == []
    modifies e`garbage, e`vals, e`unsat, e`marks, e`markedStack
    ensures e.Valid() && Searched(old(e.S()), e.S(), p) && e.occs == old(e.occs)
    ensures OnStack(e.marks, e.markedStack)
    ensures !e.unsat && Val(first, e.vals) == 0 ==>
      && MarksOk(e.marks, e.markedStack, e.literals, e.garbage, e.vals, e.occs[first], |e.occs[first]|, first)
      && MarksAll(e.S(), e.marks, e.occs[first], |e.occs[first]|, first) && e.vals == old(e.vals)
  {
    hide Keeps, Moves, Connected, NewGarbage, MarksOk, Implied, Searched, F, BinaryIn, Witness, Clean, OnStack,
         MarksAll;
    var os := e.occs[first];
    ListedOnce(e.literals, e.garbage, e.occs, e.vars, e.next, first);
    ghost var s0 := e.S();
    SearchedNot(s0, p);
    NoMarks(e.literals, e.garbage, e.vals, os, first);
    AllMarkedNone(e.S(), os, first);
    for k := 0 to |os|
      invariant e.Valid() && Searched(s0, e.S(), p) && e.literals == s0.literals && !e.unsat && Val(first, e.vals) == 0
      invariant e.vals == s0.vals
      invariant MarksOk(e.marks, e.markedStack, e.literals, e.garbage, e.vals, os, k, first)
      invariant MarksAll(e.S(), e.marks, os, k, first)
      invariant OnStack(e.marks, e.markedStack)
    {
      var c := os[k];
      ghost var s1 := e.S();
      MarksLater(e.marks, e.markedStack, e.literals, e.garbage, e.vals, os, k, k + 1, first);
      if c in e.garbage {
        AllMarkedStep(s1, e.S(), e.marks, e.marks, os, k, first);
        continue;
      }
      var second := SecondLiteral(e, c, first, p);
      SearchStep(s0, s1, e.S(), p);
      MarksKept(e.marks, e.markedStack, s1, e.S(), os, k, first, p);
      MarksLater(e.marks, e.markedStack, e.literals, e.garbage, e.vals, os, k, k + 1, first);
      if second == None {
        AllMarkedStep(s1, e.S(), e.marks, e.marks, os, k, first);
        continue;
      }
      var tmp := Marked(e.marks, second.value);
      SecondFacts(e.literals, e.garbage, e.occs, e.vars, e.next, e.vals, c, first, second.value);
      if tmp < 0 {
        ClashFound(e.S(), e.marks, e.markedStack, os, k, c, first, second.value, e.occs, e.vars, e.next);
        ghost var s2 := e.S();
        AssignAndPropagate(e, first, p);
        SearchAssigned(s0, s2, e.S(), p);
        return;
      }
      if tmp > 0 {
        ghost var s2 := e.S();
        CopyFound(e.S(), e.marks, e.markedStack, os, k, first, second.value, p, e.occs, e.vars, e.next);
        MoreGarbage(e.literals, e.garbage, e.occs, e.vars, e.next, c);
        CopyKeepsMarks(e.marks, e.markedStack, e.literals, e.garbage, e.vals, os, k, first);
        e.garbage := e.garbage + {c};
        SearchedGarbage(s2, e.S(), p);
        SearchedTrans(s0, s2, e.S(), p);
        AllMarkedStep(s1, e.S(), e.marks, e.marks, os, k, first);
        continue;
      }
      MarkOne(e.marks, e.markedStack, e.literals, e.garbage, e.vals, os, k, first, second.value);
      MarkStays(e.marks, e.markedStack, e.literals, e.garbage, e.vals, os, k, first, second.value);
      AllMarkedStep(s1, e.S(), e.marks, e.marks[Var(second.value) := if second.value > 0 then 1 else -1], os, k, first);
      StackMore(e.marks, e.markedStack, second.value);
      e.markedStack := e.markedStack + [second.value];
      e.marks := e.marks[Var(second.value) := if second.value > 0 then 1 else -1];
    }
  }

  ghost predicate LiveBinary(s: State, c: nat, first: Lit, x: Lit) {
    c in s.literals && c !in s.garbage && BinaryIn(s.literals[c], first, x, s.vals)
  }

  /** The second literals of the binary clauses with `first` are marked. */
  ghost predicate MarksAll(s: State, marks: map<int, int>, os: seq<nat>, k: nat, first: Lit)
    requires k <= |os|
  {
    forall i, x: Lit :: 0 <= i < k && LiveBinary(s, os[i], first, x) ==> Marked(marks, x) == 1
  }

  lemma AllMarkedNone(s: State, os: seq<nat>, first: Lit)
    ensures MarksAll(s, map[], os, 0, first)
  {
  }

  lemma AllMarkedStep(s: State, t: State, marks: map<int, int>, now: map<int, int>, os: seq<nat>, k: nat, first: Lit)
    requires k < |os| && MarksAll(s, marks, os, k, first)
    requires t.literals == s.literals && t.vals == s.vals && s.garbage <= t.garbage
    requires forall x: Lit :: Marked(marks, x) == 1 ==> Marked(now, x) == 1
    requires os[k] in t.literals && os[k] !in t.garbage ==>
      forall x: Lit :: BinaryIn(t.literals[os[k]], first, x, t.vals) ==> Marked(now, x) == 1
    ensures MarksAll(t, now, os, k + 1, first)
  {
    hide BinaryIn, Marked;
  }

  lemma AllMarkedLater(s: State, t: State, marks: map<int, int>, os: seq<nat>, first: Lit)
    requires MarksAll(s, marks, os, |os|, first)
    requires t.literals == s.literals && t.vals == s.vals && s.garbage <= t.garbage
    ensures MarksAll(t, marks, os, |os|, first)
  {
    hide BinaryIn, Marked;
  }

  lemma MarkStays(marks: map<int, int>, stack: seq<Lit>, literals: map<nat, Clause>, garbage: set<nat>, vals: map<int,
        bool>,
      os: seq<nat>, k: nat, first: Lit, second: Lit)
    requires k <= |os| && MarksOk(marks, stack, literals, garbage, vals, os, k, first) && Marked(marks, second) == 0
    ensures var now := marks[Var(second) := if second > 0 then 1 else -1];
      Marked(now, second) == 1 && forall x: Lit :: Marked(marks, x) == 1 ==> Marked(now, x) == 1
  {
  }

  ghost predicate OnStack(marks: map<int, int>, stack: seq<Lit>) {
    forall v :: v in marks ==> v in ClauseVars(stack)
  }

  method UnmarkBinaryLiterals(e: Eliminator)
    requires OnStack(e.marks, e.markedStack)
    modifies e`marks, e`markedStack
    ensures e.marks == map[] && e.markedStack == []
  {
    var stack := e.markedStack;
    assert stack[0..] == stack;
    for k := 0 to |stack|
      invariant forall v :: v in e.marks ==> v in ClauseVars(stack[k..])
    {
      assert stack[k..] == [stack[k]] + stack[k+1..];
      forall v | v in ClauseVars(stack[k..]) && v != Var(stack[k])
        ensures v in ClauseVars(stack[k+1..])
      {
        var l :| l in stack[k..] && Var(l) == v;
        assert l in stack[k+1..];
      }
      e.marks := e.marks - {Var(stack[k])};
    }
    assert stack[|stack|..] == [];
    NoEntries(e.marks);
    e.markedStack := [];
  }

  lemma NoEntries(marks: map<int, int>)
    requires forall v :: v in marks ==> v in ClauseVars([])
    ensures marks == map[]
  {
    assert ClauseVars([]) == {};
    forall v
      ensures v !in marks.Keys
    {
      assert v in marks.Keys ==> v in marks;
    }
    assert marks.Keys == {};
  }

  lemma StackMore(marks: map<int, int>, stack: seq<Lit>, l: Lit)
    requires OnStack(marks, stack)
    ensures OnStack(marks[Var(l) := if l > 0 then 1 else -1], stack + [l])
  {
    forall v | v in marks[Var(l) := if l > 0 then 1 else -1]
      ensures v in ClauseVars(stack + [l])
    {
      if v == Var(l) {
        assert l in stack + [l];
      } else {
        var k :| k in stack && Var(k) == v;
        assert k in stack + [l];
      }
    }
  }

  lemma NoMarks(literals: map<nat, Clause>, garbage: set<nat>, vals: map<int, bool>, os: seq<nat>, first: Lit)
    ensures MarksOk(map[], [], literals, garbage, vals, os, 0, first) && OnStack(map[], [])
  {
  }

  lemma ListedOnce(literals: map<nat, Clause>, garbage: set<nat>, occs: map<Lit, seq<nat>>, vars: set<int>, next: nat,
        l: Lit)
    requires Connected(literals, garbage, occs, vars, next) && l in occs
    ensures NoDuplicates(occs[l])
    ensures forall r :: r in occs[l] ==> r in literals && l in literals[r] && Neg(l) !in literals[r]
  {
    forall r | r in occs[l]
      ensures r in literals && l in literals[r] && Neg(l) !in literals[r]
    {
      assert l in Lits(literals[r]);
    }
  }

  lemma SearchStep(s0: State, s: State, t: State, p: Lit)
    requires Searched(s0, s, p) && Moves(s, t, p) && t.literals == s.literals && t.vals == s.vals
    ensures Searched(s0, t, p) && Keeps(s, t, p)
  {
    SearchedGarbage(s, t, p);
    SearchedTrans(s0, s, t, p);
  }

  lemma SearchAssigned(s0: State, s: State, t: State, p: Lit)
    requires Searched(s0, s, p) && Moves(s, t, p) && t.literals == s.literals
    requires !t.unsat && Clean(s.literals, s.garbage, s.vals, p) ==> Clean(t.literals, t.garbage, t.vals, p)
    ensures Searched(s0, t, p)
  {
    assert Searched(s, t, p);
    SearchedTrans(s0, s, t, p);
  }

  lemma SecondFacts(literals: map<nat, Clause>, garbage: set<nat>, occs: map<Lit, seq<nat>>, vars: set<int>, next: nat,
        vals: map<int, bool>,
      c: nat, first: Lit, second: Lit)
    requires Connected(literals, garbage, occs, vars, next) && vals.Keys <= vars && c in literals
    requires BinaryIn(literals[c], first, second, vals)
    ensures Val(second, vals) == 0 && Val(first, vals) == 0 && Var(second) in vars && Var(first) in vars
    ensures Var(second) != Var(first)
    ensures forall v :: v in vals ==> v > 0
  {
    ClauseFacts(literals, garbage, occs, vars, next, c);
    ValuesPositive(literals, garbage, occs, vars, next, vals);
    assert first in Actual(literals[c], vals) && second in Actual(literals[c], vals);
    assert first in Lits(literals[c]) && second in Lits(literals[c]);
    assert second != Neg(first);
  }

  lemma ClashFound(s: State, marks: map<int, int>, stack: seq<Lit>, os: seq<nat>, k: nat, c: nat, first: Lit,
        second: Lit,
      occs: map<Lit, seq<nat>>, vars: set<int>, next: nat)
    requires k < |os| && MarksOk(marks, stack, s.literals, s.garbage, s.vals, os, k, first) && Marked(marks, second) < 0
    requires c in s.literals && c !in s.garbage && BinaryIn(s.literals[c], first, second, s.vals)
    requires Connected(s.literals, s.garbage, occs, vars, next) && s.vals.Keys <= vars
    ensures Implied(F(s), {first})
  {
    SecondFacts(s.literals, s.garbage, occs, vars, next, s.vals, c, first, second);
    assert Marked(marks, Neg(second)) == 1;
    var i :| 0 <= i < k && Witness(os[i], s.literals, s.garbage, s.vals, first, Neg(second));
    WitnessLive(os[i], s.literals, s.garbage, s.vals, first, Neg(second));
    Swapped(s.literals[c], first, second, s.vals);
    Swapped(s.literals[os[i]], first, Neg(second), s.vals);
    HyperUnary(s, c, os[i], second, second, Neg(second), first);
  }

  lemma Swapped(c: Clause, x: Lit, y: Lit, vals: map<int, bool>)
    requires BinaryIn(c, x, y, vals)
    ensures BinaryIn(c, y, x, vals)
  {
  }

  lemma CopyFound(s: State, marks: map<int, int>, stack: seq<Lit>, os: seq<nat>, k: nat, first: Lit, second: Lit,
        p: Lit,
      occs: map<Lit, seq<nat>>, vars: set<int>, next: nat)
    requires k < |os| && MarksOk(marks, stack, s.literals, s.garbage, s.vals, os, k, first) && Marked(marks, second) > 0
    requires NoDuplicates(os) && (p == first || p == Neg(first))
    requires os[k] in s.literals && os[k] !in s.garbage && BinaryIn(s.literals[os[k]], first, second, s.vals)
    requires Connected(s.literals, s.garbage, occs, vars, next) && s.vals.Keys <= vars
    ensures Keeps(s, s.(garbage := s.garbage + {os[k]}), p)
  {
    SecondFacts(s.literals, s.garbage, occs, vars, next, s.vals, os[k], first, second);
    assert Marked(marks, second) == 1;
    var i :| 0 <= i < k && Witness(os[i], s.literals, s.garbage, s.vals, first, second);
    WitnessLive(os[i], s.literals, s.garbage, s.vals, first, second);
    DropCopy(s, os[k], os[i], first, second, p);
  }

  lemma CopyKeepsMarks(marks: map<int, int>, stack: seq<Lit>, literals: map<nat, Clause>, garbage: set<nat>,
        vals: map<int, bool>,
      os: seq<nat>, k: nat, first: Lit)
    requires k < |os| && NoDuplicates(os) && MarksOk(marks, stack, literals, garbage, vals, os, k, first)
    ensures MarksOk(marks, stack, literals, garbage + {os[k]}, vals, os, k + 1, first)
  {
    forall x: Lit | Marked(marks, x) == 1
      ensures MarkWitness(literals, garbage + {os[k]}, vals, os, k + 1, first, x)
    {
      var i :| 0 <= i < k && Witness(os[i], literals, garbage, vals, first, x);
      assert os[i] != os[k];
      assert Witness(os[i], literals, garbage + {os[k]}, vals, first, x);
    }
  }

  // ------------------------------------------------------------------ searches

  /** Either no gate, or live clauses with the pivot that were flagged. */
  ghost predicate Found(e: Eliminator, p: Lit)
    reads e`gates, e`gate, e`unsat, e`vals, e`literals, e`garbage
  {
    if e.gates == [] then e.gate == {}
    else
      && e.gate == RefSet(e.gates) && !e.unsat && Val(p, e.vals) == 0
      && (forall r :: r in e.gate ==>
            r in e.literals && r !in e.garbage && (p in e.literals[r] || Neg(p) in e.literals[r]))
      && Flagged(e.literals, e.gate, p, e.vals)
  }

  /** Nothing is marked and no gate has been found. */
  ghost predicate Ready(e: Eliminator, p: Lit)
    reads e
  {
    && e.Valid() && e.marks == map[] && e.markedStack == [] && e.gates == [] && e.gate == {}
    && p in e.occs && Neg(p) in e.occs
  }

  /** Two live clauses say that the pivot and another literal are equivalent. */
  ghost predicate HasEquivalence(s: State, ns: seq<nat>, ps: seq<nat>, p: Lit) {
    exists i, j, x: Lit :: 0 <= i < |ns| && 0 <= j < |ps| && EquivalenceAt(s, ns[i], ps[j], p, x)
  }

  ghost predicate EquivalenceAt(s: State, c: nat, d: nat, p: Lit, x: Lit) {
    LiveBinary(s, c, Neg(p), x) && LiveBinary(s, d, p, Neg(x))
  }

  /** No clause among the first `k` has a negatively marked second literal. */
  ghost predicate NoneClashes(s: State, marks: map<int, int>, ns: seq<nat>, k: nat, p: Lit)
    requires k <= |ns|
  {
    forall i, x: Lit :: 0 <= i < k && LiveBinary(s, ns[i], Neg(p), x) ==> Marked(marks, x) != -1
  }

  /** Without new values, neither a mark nor a clash has been missed. */
  ghost predicate Unclashed(s: State, marks: map<int, int>, ns: seq<nat>, ps: seq<nat>, k: nat, p: Lit)
    requires k <= |ns|
  {
    MarksAll(s, marks, ps, |ps|, p) && NoneClashes(s, marks, ns, k, p)
  }

  lemma NoClashYet(s: State, marks: map<int, int>, ns: seq<nat>, ps: seq<nat>, p: Lit)
    requires MarksAll(s, marks, ps, |ps|, p)
    ensures Unclashed(s, marks, ns, ps, 0, p)
  {
    hide MarksAll;
  }

  lemma ClashStep(changed: Option<Lit>, s: State, t: State, marks: map<int, int>, ns: seq<nat>, ps: seq<nat>, k: nat,
        p: Lit)
    requires k < |ns|
    requires changed.None? ==> Unclashed(s, marks, ns, ps, k, p)
    requires changed.None? ==> t.literals == s.literals && t.vals == s.vals && s.garbage <= t.garbage
    requires changed.None? ==> forall x: Lit :: LiveBinary(t, ns[k], Neg(p), x) ==> Marked(marks, x) != -1
    ensures changed.None? ==> Unclashed(t, marks, ns, ps, k + 1, p)
  {
    hide BinaryIn, Marked;
    if changed.None? {
      AllMarkedLater(s, t, marks, ps, p);
    }
  }

  lemma NoEquivalence(s: State, marks: map<int, int>, ns: seq<nat>, ps: seq<nat>, p: Lit)
    requires Unclashed(s, marks, ns, ps, |ns|, p)
    ensures !HasEquivalence(s, ns, ps, p)
  {
    hide LiveBinary, Marked;
    forall i, j, x: Lit | 0 <= i < |ns| && 0 <= j < |ps|
      ensures !EquivalenceAt(s, ns[i], ps[j], p, x)
    {
      OppositeMarks(marks, x);
    }
  }

  lemma OppositeMarks(marks: map<int, int>, x: Lit)
    ensures Marked(marks, Neg(x)) == 0 - Marked(marks, x)
  {
  }

  lemma EquivalenceTaken(s: State, ns: seq<nat>, ps: seq<nat>, c: nat, d: nat, p: Lit, x: Lit)
    requires c in ns && d in ps && EquivalenceAt(s, c, d, p, x)
    ensures HasEquivalence(s, ns, ps, p)
  {
    hide EquivalenceAt;
    var i :| 0 <= i < |ns| && ns[i] == c;
    var j :| 0 <= j < |ps| && ps[j] == d;
  }

  lemma NoneFound(e: Eliminator, pivot: Lit)
    requires e.gates == [] && e.gate == {}
    ensures Found(e, pivot)
  {
  }

  lemma OppositeValue(l: Lit, vals: map<int, bool>)
    ensures Val(Neg(l), vals) == 0 - Val(l, vals)
  {
  }

  /** `find_equivalence`: a binary clause with the negated pivot whose second
      literal is marked negatively. */
  method FindEquivalence(e: Eliminator, pivot: Lit)
    requires Ready(e, pivot) && !e.unsat && Val(pivot, e.vals) == 0
    modifies e`garbage, e`vals, e`unsat, e`marks, e`markedStack, e`gate, e`gates
    ensures e.Valid() && Searched(old(e.S()), e.S(), pivot) && e.marks == map[] && e.markedStack == []
    ensures Found(e, pivot) && (e.gates != [] ==> GateOver(e.literals, e.gate, pivot, e.vals))
    ensures !e.unsat && e.vals == old(e.vals) ==>
      (e.gates != [] <==> HasEquivalence(e.S(), e.occs[Neg(pivot)], e.occs[pivot], pivot))
  {
    hide Keeps, Moves, Connected, NewGarbage, MarksOk, Implied, Searched, F, BinaryIn, Witness, Clean, OnStack,
         GateOver, NoneSatisfied, RefSet, MarksAll, HasEquivalence, EquivalenceAt, Marked, Unclashed, Val, Found;
    ghost var s0 := e.S();
    MarkBinaryLiterals(e, pivot, pivot);
    if !e.unsat && Val(pivot, e.vals) == 0 {
      var ns, ps := e.occs[Neg(pivot)], e.occs[pivot];
      ListedOnce(e.literals, e.garbage, e.occs, e.vars, e.next, Neg(pivot));
      ListedOnce(e.literals, e.garbage, e.occs, e.vars, e.next, pivot);
      ghost var changed: Option<Lit> := None;
      NoClashYet(e.S(), e.marks, ns, ps, pivot);
      for k := 0 to |ns|
        invariant e.Valid() && Searched(s0, e.S(), pivot) && e.literals == s0.literals && !e.unsat
        invariant Val(pivot, e.vals) == 0
        invariant e.gates == [] && e.gate == {} && OnStack(e.marks, e.markedStack)
        invariant MarksOk(e.marks, e.markedStack, e.literals, e.garbage, e.vals, ps, |ps|, pivot)
        invariant changed.Some? ==> Val(changed.value, s0.vals) == 0 && Val(changed.value, e.vals) != 0
        invariant changed.None? ==> e.vals == s0.vals && Unclashed(e.S(), e.marks, ns, ps, k, pivot)
      {
        var c := ns[k];
        ghost var s1 := e.S();
        if c in e.garbage {
          ClashStep(changed, s1, e.S(), e.marks, ns, ps, k, pivot);
          continue;
        }
        OppositeValue(pivot, e.vals);
        var second := SecondLiteral(e, c, Neg(pivot), pivot);
        SearchStep(s0, s1, e.S(), pivot);
        MarksKept(e.marks, e.markedStack, s1, e.S(), ps, |ps|, pivot, pivot);
        if second == None {
          ClashStep(changed, s1, e.S(), e.marks, ns, ps, k, pivot);
          continue;
        }
        SecondFacts(e.literals, e.garbage, e.occs, e.vars, e.next, e.vals, c, Neg(pivot), second.value);
        var tmp := Marked(e.marks, second.value);
        if tmp > 0 {
          TakeUnit(e, ps, c, pivot, second.value, s0);
          changed := Some(second.value);
          if Val(pivot, e.vals) != 0 || e.unsat {
            break;
          }
        }
        if tmp >= 0 {
          ClashStep(changed, s1, e.S(), e.marks, ns, ps, k, pivot);
          continue;
        }
        ghost var s3 := e.S();
        MarkIsSign(e.marks, e.markedStack, e.S(), ps, pivot, second.value);
        ghost var d := TakeEquivalence(e, ps, c, pivot, second.value);
        SearchStep(s0, s3, e.S(), pivot);
        EquivalenceTaken(e.S(), ns, ps, c, d, pivot, second.value);
        break;
      }
      if e.gates == [] && !e.unsat && changed.None? {
        NoEquivalence(e.S(), e.marks, ns, ps, pivot);
      }
    }
    UnmarkBinaryLiterals(e);
    if e.gates == [] {
      NoneFound(e, pivot);
    }
  }

  lemma SearchedVals(s: State, t: State, p: Lit)
    requires Searched(s, t, p)
    ensures forall l :: Val(l, t.vals) == 0 ==> Val(l, s.vals) == 0
  {
    hide Clean;
    KeepsFacts(s, t, p);
  }

  lemma MarkIsSign(marks: map<int, int>, stack: seq<Lit>, s: State, ps: seq<nat>, first: Lit, x: Lit)
    requires MarksOk(marks, stack, s.literals, s.garbage, s.vals, ps, |ps|, first)
    ensures Marked(marks, x) == 0 || Marked(marks, x) == 1 || Marked(marks, x) == -1
  {
  }

  /** The unit that a clause with the negated pivot and a marked one imply. */
  method TakeUnit(e: Eliminator, ps: seq<nat>, c: nat, pivot: Lit, second: Lit, ghost s0: State)
    requires e.Valid() && Searched(s0, e.S(), pivot) && e.literals == s0.literals && !e.unsat
    requires Val(pivot, e.vals) == 0 && Val(second, e.vals) == 0 && Var(second) in e.vars
    requires MarksOk(e.marks, e.markedStack, e.literals, e.garbage, e.vals, ps, |ps|, pivot)
    requires Marked(e.marks, second) > 0 && forall v :: v in e.vals ==> v > 0
    requires c in e.literals && c !in e.garbage && BinaryIn(e.literals[c], Neg(pivot), second, e.vals)
    modifies e`garbage, e`vals, e`unsat
    ensures e.Valid() && Searched(s0, e.S(), pivot) && Val(second, e.vals) > 0 && Val(second, s0.vals) == 0
    ensures MarksOk(e.marks, e.markedStack, e.literals, e.garbage, e.vals, ps, |ps|, pivot)
  {
    hide Keeps, Moves, Connected, NewGarbage, MarksOk, Implied, Searched, F, BinaryIn, Clean, Marked;
    ghost var s2 := e.S();
    BothImply(e.S(), e.marks, e.markedStack, ps, c, pivot, second);
    SearchedVals(s0, e.S(), pivot);
    AssignAndPropagate(e, second, pivot);
    SearchAssigned(s0, s2, e.S(), pivot);
    MovesKeeps(s2, e.S(), pivot);
    MarksKept(e.marks, e.markedStack, s2, e.S(), ps, |ps|, pivot, pivot);
  }

  /** The equivalence of a clause with the negated pivot and a marked one. */
  method TakeEquivalence(e: Eliminator, ps: seq<nat>, c: nat, pivot: Lit, second: Lit) returns (ghost other: nat)
    requires e.Valid() && !e.unsat && Val(pivot, e.vals) == 0 && Val(second, e.vals) == 0 && Var(second) != Var(pivot)
    requires forall r :: r in ps ==> r in e.literals && pivot in e.literals[r]
    requires MarksOk(e.marks, e.markedStack, e.literals, e.garbage, e.vals, ps, |ps|, pivot)
    requires Marked(e.marks, second) == -1
    requires c in e.literals && c !in e.garbage && BinaryIn(e.literals[c], Neg(pivot), second, e.vals)
    modifies e`garbage, e`gate, e`gates
    ensures e.Valid() && Moves(old(e.S()), e.S(), pivot) && Found(e, pivot)
    ensures e.gates != [] && GateOver(e.literals, e.gate, pivot, e.vals)
    ensures other in ps && EquivalenceAt(e.S(), c, other, pivot, second)
  {
    hide Moves, Connected, NewGarbage, BinaryIn, MarksOk, GateOver, NoneSatisfied, Witness;
    ghost var garbage0 := e.garbage;
    var d := FindBinary(e, ps, pivot, Neg(second));
    StaysLive(garbage0, e.garbage, e.literals, e.vals, c, Neg(pivot), second);
    EquivalenceFound(e.literals, e.garbage, e.vals, c, d, pivot, second);
    e.gate, e.gates := {c, d}, [c, d];
    TwoRefs(c, d);
    other := d;
  }

  lemma StaysLive(garbage0: set<nat>, garbage: set<nat>, literals: map<nat, Clause>, vals: map<int, bool>, c: nat,
        x: Lit, y: Lit)
    requires NewGarbage(garbage0, garbage, literals, vals) && c in literals && c !in garbage0
    requires BinaryIn(literals[c], x, y, vals)
    ensures c !in garbage
  {
  }

  /** The first clause that is binary with `first` and `x`, which was marked. */
  method FindBinary(e: Eliminator, ps: seq<nat>, first: Lit, x: Lit) returns (d: nat)
    requires e.Valid() && Val(first, e.vals) == 0 && Val(x, e.vals) == 0
    requires forall r :: r in ps ==> r in e.literals && first in e.literals[r]
    requires MarksOk(e.marks, e.markedStack, e.literals, e.garbage, e.vals, ps, |ps|, first) && Marked(e.marks, x) == 1
    modifies e`garbage
    ensures e.Valid() && Moves(old(e.S()), e.S(), first)
    ensures d in ps && d !in e.garbage && BinaryIn(e.literals[d], first, x, e.vals)
    ensures NewGarbage(old(e.garbage), e.garbage, e.literals, e.vals)
  {
    hide Moves, Connected, NewGarbage, BinaryIn;
    ghost var i := WitnessAt(e.S(), e.marks, e.markedStack, ps, first, x);
    MovesNot(e.S(), first);
    NoNewGarbage(e.garbage, e.literals, e.vals);
    ghost var s0 := e.S();
    var k := 0;
    while true
      invariant e.Valid() && 0 <= k <= i < |ps| && Moves(s0, e.S(), first)
      invariant NewGarbage(s0.garbage, e.garbage, e.literals, e.vals)
      invariant Witness(ps[i], e.literals, e.garbage, e.vals, first, x)
      decreases i - k
    {
      var c := ps[k];
      WitnessBinary(ps[i], e.S(), first, x);
      if c !in e.garbage {
        ghost var s1 := e.S();
        var other := SecondLiteral(e, c, first, first);
        MovesTrans(s0, s1, e.S(), first);
        MovesKeeps(s1, e.S(), first);
        GarbageTrans(s0.garbage, s1.garbage, e.garbage, e.literals, s1.vals, e.vals);
        WitnessKept(ps[i], s1, e.S(), first, x, first);
        if other == Some(x) {
          return c;
        }
      }
      k := k + 1;
    }
  }

  lemma MovesKeeps(s: State, t: State, p: Lit)
    requires Moves(s, t, p)
    ensures Keeps(s, t, p)
  {
  }

  lemma WitnessAt(s: State, marks: map<int, int>, stack: seq<Lit>, ps: seq<nat>, first: Lit, x: Lit) returns (i: nat)
    requires MarksOk(marks, stack, s.literals, s.garbage, s.vals, ps, |ps|, first) && Marked(marks, x) == 1
    ensures i < |ps| && Witness(ps[i], s.literals, s.garbage, s.vals, first, x)
  {
    i :| 0 <= i < |ps| && Witness(ps[i], s.literals, s.garbage, s.vals, first, x);
  }

  lemma WitnessBinary(r: nat, s: State, first: Lit, x: Lit)
    requires Witness(r, s.literals, s.garbage, s.vals, first, x) && Val(first, s.vals) == 0 && Val(x, s.vals) == 0
    ensures r !in s.garbage && BinaryIn(s.literals[r], first, x, s.vals)
  {
    WitnessLive(r, s.literals, s.garbage, s.vals, first, x);
  }

  lemma BothImply(s: State, marks: map<int, int>, stack: seq<Lit>, ps: seq<nat>, c: nat, pivot: Lit, second: Lit)
    requires MarksOk(marks, stack, s.literals, s.garbage, s.vals, ps, |ps|, pivot) && Marked(marks, second) > 0
    requires c in s.literals && c !in s.garbage && BinaryIn(s.literals[c], Neg(pivot), second, s.vals)
    requires Val(pivot, s.vals) == 0 && Val(second, s.vals) == 0 && forall v :: v in s.vals ==> v > 0
    ensures Implied(F(s), {second})
  {
    assert Marked(marks, second) == 1;
    var i := WitnessAt(s, marks, stack, ps, pivot, second);
    WitnessLive(ps[i], s.literals, s.garbage, s.vals, pivot, second);
    HyperUnary(s, c, ps[i], pivot, Neg(pivot), pivot, second);
  }

  lemma EquivalenceFound(literals: map<nat, Clause>, garbage: set<nat>, vals: map<int, bool>, c: nat, d: nat,
        pivot: Lit, second: Lit)
    requires c in literals && d in literals && Val(pivot, vals) == 0 && Var(second) != Var(pivot)
    requires BinaryIn(literals[c], Neg(pivot), second, vals) && BinaryIn(literals[d], pivot, Neg(second), vals)
    ensures GateOver(literals, {c, d}, pivot, vals) && Neg(pivot) in literals[c] && pivot in literals[d]
  {
    EquivalenceGate(literals, c, d, pivot, second, vals);
    assert Neg(pivot) in Actual(literals[c], vals) && pivot in Actual(literals[d], vals);
  }

  lemma TwoRefs(c: nat, d: nat)
    ensures RefSet([c, d]) == {c, d}
  {
  }
}

/** The clause database of the simplifiers: clauses by reference, garbage flags,
    and reordering of literals in place. */
module Clauses {
  import opened Logic

  function MoveToFront<T>(s: seq<T>, i: nat): seq<T>
    requires i < |s|
  {
    [s[i]] + s[..i] + s[i+1..]
  }

  lemma MoveToFrontPermutes<T>(s: seq<T>, i: nat)
    requires i < |s|
    ensures multiset(MoveToFront(s, i)) == multiset(s)
    ensures forall x :: x in MoveToFront(s, i) <==> x in s
    ensures NoDuplicates(s) ==> NoDuplicates(MoveToFront(s, i))
  {
    assert s == s[..i] + [s[i]] + s[i+1..];
  }

  /** The irredundant clauses: all that are not garbage. */
  ghost function Live(literals: map<nat, Clause>, garbage: set<nat>): Formula {
    set r | r in literals && r !in garbage :: Lits(literals[r])
  }

  /** The clauses are the same up to the order of their literals. */
  ghost predicate Reordered(now: map<nat, Clause>, before: map<nat, Clause>) {
    now.Keys == before.Keys && forall r :: r in now ==> multiset(now[r]) == multiset(before[r])
  }

  lemma ReorderedSame(literals: map<nat, Clause>)
    ensures Reordered(literals, literals)
  {
  }

  lemma ReorderedLits(now: map<nat, Clause>, before: map<nat, Clause>, r: nat)
    requires Reordered(now, before) && r in now
    ensures Lits(now[r]) == Lits(before[r]) && forall l :: l in now[r] <==> l in before[r]
  {
    forall l
      ensures l in now[r] <==> l in before[r]
    {
      assert l in now[r] <==> l in multiset(now[r]);
      assert l in before[r] <==> l in multiset(before[r]);
    }
  }

  lemma LiveReordered(now: map<nat, Clause>, before: map<nat, Clause>, garbage: set<nat>)
    requires Reordered(now, before)
    ensures Live(now, garbage) == Live(before, garbage)
  {
    forall r | r in now
      ensures Lits(now[r]) == Lits(before[r])
    {
      ReorderedLits(now, before, r);
    }
    forall d
      ensures d in Live(now, garbage) <==> d in Live(before, garbage)
    {
    }
  }

  lemma SameSize(now: map<nat, Clause>, before: map<nat, Clause>, r: nat)
    requires Reordered(now, before) && r in now
    ensures |now[r]| == |before[r]|
  {
    assert |multiset(now[r])| == |now[r]| && |multiset(before[r])| == |before[r]|;
  }

  lemma ReorderedTrans(a: map<nat, Clause>, b: map<nat, Clause>, c: map<nat, Clause>)
    requires Reordered(a, b) && Reordered(b, c)
    ensures Reordered(a, c)
  {
  }

  lemma LiveRemove(literals: map<nat, Clause>, garbage: set<nat>, c: nat)
    requires c in literals && c !in garbage
    ensures Live(literals, garbage + {c}) + {Lits(literals[c])} == Live(literals, garbage)
  {
  }

  lemma {:induction false} SizeOf(ls: seq<Lit>)
    requires NoDuplicates(ls)
    ensures |Lits(ls)| == |ls|
  {
    if ls == [] {
      assert Lits(ls) == {};
    } else {
      var k := |ls| - 1;
      SizeOf(ls[..k]);
      LitsOfPrefix(ls, k);
      assert ls[..k+1] == ls;
      assert ls[k] !in Lits(ls[..k]);
    }
  }

  lemma SizeOfSubset(a: set<Lit>, b: set<Lit>)
    requires a <= b
    ensures |a| <= |b|
  {
    assert b == a + (b - a);
  }

  lemma SubsetOfSize(a: set<Lit>, b: set<Lit>)
    requires a <= b
    ensures a == b <==> |a| == |b|
  {
    assert b == a + (b - a);
    assert |b| == |a| + |b - a|;
  }

  /** Marking all literals of a clause. */
  method Marks(c: Clause) returns (marks: set<Lit>)
    ensures marks == Lits(c)
  {
    marks := {};
    for i := 0 to |c|
      invariant marks == Lits(c[..i])
    {
      LitsOfPrefix(c, i);
      marks := marks + {c[i]};
    }
    assert c[..|c|] == c;
  }

  // ------------------------------------------------------ partial assignments

  /** Positive when `l` is true, negative when it is false, zero when unassigned. */
  function Val(l: Lit, vals: map<int, bool>): int {
    if Var(l) !in vals then 0 else if vals[Var(l)] == (l > 0) then 1 else -1
  }

  /** `set_val (l, -1)`. */
  function SetFalse(l: Lit, vals: map<int, bool>): map<int, bool> {
    vals[Var(l) := l < 0]
  }

  ghost predicate HasTrue(c: Clause, vals: map<int, bool>) {
    exists l :: l in c && Val(l, vals) > 0
  }

  ghost predicate Agrees(m: Model, vals: map<int, bool>) {
    forall v :: v in vals ==> ((v in m) == vals[v])
  }

  /** The literals assigned at decision level zero, as unit clauses. */
  ghost function Units(root: map<int, bool>): Formula {
    set v | v in root && v > 0 :: {(if root[v] then v else 0 - v) as Lit}
  }

  /** The clauses that are not garbage, the units, and the empty clause once derived. */
  ghost function FormulaOf(literals: map<nat, Clause>, garbage: set<nat>, vals: map<int, bool>, unsat: bool): Formula {
    Live(literals, garbage) + Units(vals) + if unsat then {{}} else {}
  }

  lemma AgreesTrue(m: Model, vals: map<int, bool>, l: Lit)
    requires Agrees(m, vals)
    ensures Val(l, vals) > 0 ==> True(l, m)
    ensures Val(l, vals) < 0 ==> !True(l, m)
  {
  }

  lemma AgreesUnits(m: Model, root: map<int, bool>)
    requires forall v :: v in root ==> v > 0
    ensures Models(m, Units(root)) <==> Agrees(m, root)
  {
    if Models(m, Units(root)) {
      forall v | v in root
        ensures (v in m) == root[v]
      {
        var l: Lit := if root[v] then v else 0 - v;
        assert {l} in Units(root);
      }
    }
    if Agrees(m, root) {
      forall c | c in Units(root)
        ensures SatLits(c, m)
      {
        var v :| v in root && v > 0 && c == {(if root[v] then v else 0 - v) as Lit};
        assert ((if root[v] then v else 0 - v) as Lit) in c;
      }
    }
  }

  lemma ModelsUnion(m: Model, f: Formula, g: Formula)
    ensures Models(m, f + g) <==> Models(m, f) && Models(m, g)
  {
  }

  /** The number of unassigned variables. */
  ghost function Free(vars: set<int>, vals: map<int, bool>): nat {
    |vars - vals.Keys|
  }

  lemma FewerUnassigned(vals: map<int, bool>, vars: set<int>, l: Lit)
    requires Val(l, vals) == 0 && Var(l) in vars
    ensures Free(vars, SetFalse(l, vals)) < Free(vars, vals)
  {
    assert vars - SetFalse(l, vals).Keys == (vars - vals.Keys) - {Var(l)};
  }
}

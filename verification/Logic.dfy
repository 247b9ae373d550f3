/** Propositional logic shared by every module: literals, clauses, models. */
module Logic {

  datatype Option<+T> = None | Some(value: T)

  /** A literal in the DIMACS convention: `v` is the variable, `-v` its negation. */
  type Lit = l: int | l != 0 witness 1

  type Clause = seq<Lit>

  /** A total assignment, given by the variables that are true.  Formulas are
      finite, so the finite sets lose no assignment that matters. */
  type Model = set<int>

  function Neg(l: Lit): Lit {
    0 - l
  }

  function Var(l: Lit): (v: int)
    ensures v > 0
  {
    if l > 0 then l else 0 - l
  }

  predicate True(l: Lit, m: Model) {
    (Var(l) in m) == (l > 0)
  }

  predicate SatClause(c: Clause, m: Model) {
    exists l :: l in c && True(l, m)
  }

  predicate SatAll(f: seq<Clause>, m: Model) {
    forall c :: c in f ==> SatClause(c, m)
  }

  ghost predicate Implies(f: seq<Clause>, c: Clause) {
    forall m: Model :: SatAll(f, m) ==> SatClause(c, m)
  }

  ghost predicate Unsat(f: seq<Clause>) {
    forall m: Model :: !SatAll(f, m)
  }

  /** The literals of a clause, without order or repetition. */
  ghost function Lits(c: Clause): set<Lit> {
    set l | l in c
  }

  lemma LitsOfPrefix(c: Clause, i: nat)
    requires i < |c|
    ensures Lits(c[..i+1]) == Lits(c[..i]) + {c[i]}
  {
    assert c[..i+1] == c[..i] + [c[i]];
    forall l
      ensures l in Lits(c[..i+1]) <==> l in Lits(c[..i]) + {c[i]}
    {
    }
  }

  lemma LitsAppend(c: Clause, l: Lit)
    ensures Lits(c + [l]) == Lits(c) + {l}
  {
    LitsOfPrefix(c + [l], |c|);
    assert (c + [l])[..|c|] == c && (c + [l])[..|c| + 1] == c + [l];
  }

  ghost function VarsOf(f: seq<Clause>): set<int> {
    set c, l | c in f && l in c :: Var(l)
  }

  ghost predicate SatLits(c: set<Lit>, m: Model) {
    exists l :: l in c && True(l, m)
  }

  /** A clause set up to the order of literals and clauses. */
  type Formula = set<set<Lit>>

  ghost predicate Models(m: Model, f: Formula) {
    forall c :: c in f ==> SatLits(c, m)
  }

  ghost predicate Satisfiable(f: Formula) {
    exists m: Model :: Models(m, f)
  }

  ghost predicate Consequence(f: Formula, c: set<Lit>) {
    forall m: Model :: Models(m, f) ==> SatLits(c, m)
  }

  lemma SatLitsOfClause(c: Clause, m: Model)
    ensures SatLits(Lits(c), m) <==> SatClause(c, m)
  {
    if SatClause(c, m) {
      var l :| l in c && True(l, m);
      assert l in Lits(c);
    }
    if SatLits(Lits(c), m) {
      var l :| l in Lits(c) && True(l, m);
      assert l in c;
    }
  }

  ghost function ClauseVars(c: Clause): set<int> {
    set l | l in c :: Var(l)
  }

  lemma VarsOfPrefix(f: seq<Clause>, i: nat)
    requires i < |f|
    ensures VarsOf(f[..i+1]) == VarsOf(f[..i]) + ClauseVars(f[i])
  {
    assert f[..i+1] == f[..i] + [f[i]];
    forall v
      ensures v in VarsOf(f[..i+1]) <==> v in VarsOf(f[..i]) + ClauseVars(f[i])
    {
    }
  }

  lemma ClauseVarsOfPrefix(c: Clause, i: nat)
    requires i < |c|
    ensures ClauseVars(c[..i+1]) == ClauseVars(c[..i]) + {Var(c[i])}
  {
    assert c[..i+1] == c[..i] + [c[i]];
    forall v
      ensures v in ClauseVars(c[..i+1]) <==> v in ClauseVars(c[..i]) + {Var(c[i])}
    {
    }
  }

  /** The model an assignment of variables stands for. */
  function ModelOf(a: map<int, bool>): Model {
    set v | v in a && a[v]
  }

  predicate NoDuplicates<T(==)>(s: seq<T>) {
    forall i, j :: 0 <= i < j < |s| ==> s[i] != s[j]
  }
}

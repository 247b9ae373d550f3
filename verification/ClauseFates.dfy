/** What becomes of the single clauses when literals are substituted by their
    representatives (the clause loop of decompose_round). */
module ClauseFates {
  import opened Logic
  import opened Clauses
  import opened Substitution

  datatype Database = Database(literals: map<nat, Clause>, garbage: set<nat>, redundant: set<nat>, vals: map<int, bool>,
    unsat: bool)

  ghost predicate Extends(vals0: map<int, bool>, vals: map<int, bool>) {
    forall v :: v in vals0 ==> v in vals && vals[v] == vals0[v]
  }

  ghost predicate Remains(r: nat, s: Database) {
    r in s.literals && r !in s.garbage
  }

  /** Nothing in the clause has to be substituted. */
  ghost predicate OwnLiterals(c: Clause, reprs: map<Lit, Lit>) {
    forall l :: l in c ==> l in reprs && reprs[l] == l
  }

  /** `clause` consists of representatives of literals of `c`, each once and not
      with its negation, and lacks only false ones. */
  ghost predicate Reduced(c: Clause, clause: Clause, vals: map<int, bool>, reprs: map<Lit, Lit>) {
    && (forall x :: x in clause ==> exists l :: l in c && l in reprs && reprs[l] == x)
    && (forall l :: l in c ==> Val(l, vals) < 0 || (l in reprs && (Val(reprs[l], vals) < 0 || reprs[l] in clause)))
    && NoDuplicates(clause) && forall x :: x in clause ==> Neg(x) !in clause
  }

  /** Clause `t`, the same or a new one of the same kind, has taken the place of the
      old clause `r`. */
  ghost predicate StandsFor(t: nat, r: nat, s0: Database, s: Database, reprs: map<Lit, Lit>) {
    && Remains(r, s0) && Remains(t, s)
    && (if t in s0.literals then t == r else r in s.garbage)
    && (t in s.redundant <==> r in s0.redundant)
    && Reduced(s0.literals[r], s.literals[t], s.vals, reprs)
  }

  /** A clause without substituted literals stays as it is; all others are satisfied
      and dropped, or replaced by what is left of them. */
  ghost predicate Fate(r: nat, s0: Database, s: Database, reprs: map<Lit, Lit>)
    requires r in s0.literals
  {
    if OwnLiterals(s0.literals[r], reprs) then Remains(r, s) && s.literals[r] == s0.literals[r]
    else
      || (r in s.garbage && Obvious(s0.literals[r], s.vals, reprs))
      || exists t :: StandsFor(t, r, s0, s, reprs)
  }

  /** A new clause takes the place of an old one. */
  ghost predicate Justified(t: nat, s0: Database, s: Database, reprs: map<Lit, Lit>) {
    exists r :: StandsFor(t, r, s0, s, reprs)
  }

  /** A binary clause that is new, or was longer before. */
  ghost predicate NewBinary(s0: Database, s: Database) {
    exists r :: r in s.literals && |s.literals[r]| == 2 && (r in s0.literals ==> |s0.literals[r]| > 2)
  }

  /** What happens in one turn of the loop: only clause `c` is touched. */
  ghost predicate Turn(s: Database, t: Database, c: nat, reprs: map<Lit, Lit>) {
    && c in s.literals && c in t.literals
    && Extends(s.vals, t.vals) && s.garbage <= t.garbage <= s.garbage + {c}
    && (forall r :: r in s.literals ==> r in t.literals && (r in t.redundant <==> r in s.redundant))
    && (forall r :: r in s.literals && r != c ==> t.literals[r] == s.literals[r])
    && (forall r :: r in t.literals && r !in s.literals ==> StandsFor(r, c, s, t, reprs))
    && (if c in s.garbage then t.literals[c] == s.literals[c] else Fate(c, s, t, reprs))
  }

  ghost predicate SameClause(r: nat, s0: Database, s: Database) {
    r in s0.literals && r in s.literals && s.literals[r] == s0.literals[r] && (r in s.garbage <==> r in s0.garbage)
  }

  /** The first `i` clauses of the list have met their fate, the others are as before. */
  ghost predicate Fates(s0: Database, list: seq<nat>, i: nat, s: Database, reprs: map<Lit, Lit>)
    requires i <= |list|
  {
    && Extends(s0.vals, s.vals) && s0.garbage <= s.garbage
    && (forall r :: r in s0.literals ==> r in s.literals && (r in s.redundant <==> r in s0.redundant))
    && (forall j :: 0 <= j < i ==> list[j] in s0.literals && (list[j] !in s0.garbage ==> Fate(list[j], s0, s, reprs)))
    && (forall j :: i <= j < |list| ==> SameClause(list[j], s0, s))
    && (forall t :: t in s.literals && t !in s0.literals ==> Justified(t, s0, s, reprs))
  }

  lemma NoFates(s: Database, list: seq<nat>, reprs: map<Lit, Lit>)
    requires forall r :: r in list ==> r in s.literals
    ensures Fates(s, list, 0, s, reprs)
  {
  }

  lemma ReducedLater(c: Clause, clause: Clause, vals0: map<int, bool>, vals: map<int, bool>, reprs: map<Lit, Lit>)
    requires Reduced(c, clause, vals0, reprs) && Extends(vals0, vals)
    ensures Reduced(c, clause, vals, reprs)
  {
    forall l | Val(l, vals0) < 0
      ensures Val(l, vals) < 0
    {
    }
  }

  /** A clause other than `c` that has taken the place of another one keeps it. */
  lemma StandsLater(x: nat, r: nat, s0: Database, s: Database, t: Database, c: nat, reprs: map<Lit, Lit>)
    requires StandsFor(x, r, s0, s, reprs) && Turn(s, t, c, reprs) && x != c
    ensures StandsFor(x, r, s0, t, reprs)
  {
    hide Reduced, Fate, Extends;
    ReducedLater(s0.literals[r], s.literals[x], s.vals, t.vals, reprs);
  }

  /** What happened to a clause that was as in the beginning. */
  lemma StandsSince(x: nat, c: nat, s0: Database, s: Database, t: Database, reprs: map<Lit, Lit>)
    requires StandsFor(x, c, s, t, reprs) && SameClause(c, s0, s) && (c in s.redundant <==> c in s0.redundant)
    requires x == c || x !in s0.literals
    requires x !in s.literals ==> c in t.garbage
    ensures StandsFor(x, c, s0, t, reprs)
  {
    hide Reduced;
  }

  lemma FateLater(r: nat, s0: Database, s: Database, t: Database, c: nat, reprs: map<Lit, Lit>)
    requires r in s0.literals && Fate(r, s0, s, reprs) && Turn(s, t, c, reprs) && r != c && c in s0.literals
    ensures Fate(r, s0, t, reprs)
  {
    hide Turn, OwnLiterals, StandsFor, Obvious;
    TurnFacts(s, t, c, reprs);
    if OwnLiterals(s0.literals[r], reprs) {
    } else if x :| StandsFor(x, r, s0, s, reprs) {
      StandsOld(x, r, s0, s, reprs);
      StandsLater(x, r, s0, s, t, c, reprs);
    } else {
      ObviousLater(s0.literals[r], s.vals, t.vals, reprs);
    }
  }

  lemma StandsOld(x: nat, r: nat, s0: Database, s: Database, reprs: map<Lit, Lit>)
    requires StandsFor(x, r, s0, s, reprs)
    ensures x in s0.literals ==> x == r
  {
  }

  lemma TurnFacts(s: Database, t: Database, c: nat, reprs: map<Lit, Lit>)
    requires Turn(s, t, c, reprs)
    ensures Extends(s.vals, t.vals) && s.garbage <= t.garbage <= s.garbage + {c}
    ensures forall r :: r in s.literals && r != c ==> r in t.literals && t.literals[r] == s.literals[r]
    ensures forall r :: r in s.literals ==> r in t.literals && (r in t.redundant <==> r in s.redundant)
  {
  }

  lemma FateSince(c: nat, s0: Database, s: Database, t: Database, reprs: map<Lit, Lit>)
    requires SameClause(c, s0, s) && (c in s.redundant <==> c in s0.redundant) && Turn(s, t, c, reprs)
    requires c !in s0.garbage && forall r :: r in s0.literals ==> r in s.literals
    ensures Fate(c, s0, t, reprs)
  {
    hide OwnLiterals, Obvious, Reduced;
    if !OwnLiterals(s0.literals[c], reprs) {
      if x :| StandsFor(x, c, s, t, reprs) {
        StandsSince(x, c, s0, s, t, reprs);
      }
    }
  }

  lemma FatesNext(s0: Database, list: seq<nat>, i: nat, s: Database, t: Database, reprs: map<Lit, Lit>)
    requires i < |list| && NoDuplicates(list) && Fates(s0, list, i, s, reprs) && Turn(s, t, list[i], reprs)
    ensures Fates(s0, list, i + 1, t, reprs)
  {
    hide Fate, StandsFor, Turn;
    var c := list[i];
    TurnFacts(s, t, c, reprs);
    forall j | 0 <= j < i + 1 && list[j] !in s0.garbage
      ensures Fate(list[j], s0, t, reprs)
    {
      if j < i {
        FateLater(list[j], s0, s, t, c, reprs);
      } else {
        FateSince(c, s0, s, t, reprs);
      }
    }
    forall x | x in t.literals && x !in s0.literals
      ensures Justified(x, s0, t, reprs)
    {
      if x in s.literals {
        var r :| StandsFor(x, r, s0, s, reprs);
        StandsLater(x, r, s0, s, t, c, reprs);
      } else {
        NewStands(x, s, t, c, reprs);
        StandsSince(x, c, s0, s, t, reprs);
      }
    }
  }

  lemma NewStands(x: nat, s: Database, t: Database, c: nat, reprs: map<Lit, Lit>)
    requires Turn(s, t, c, reprs) && x in t.literals && x !in s.literals
    ensures StandsFor(x, c, s, t, reprs) && c in t.garbage
  {
  }

  lemma NewBinaryNext(s0: Database, list: seq<nat>, i: nat, s: Database, t: Database, reprs: map<Lit, Lit>)
    requires i < |list| && Fates(s0, list, i, s, reprs) && Turn(s, t, list[i], reprs)
    ensures NewBinary(s0, t) <==> NewBinary(s0, s) || NewBinary(s, t)
  {
    hide Turn, Fate, Justified;
    var c := list[i];
    TurnFacts(s, t, c, reprs);
    assert SameClause(c, s0, s);
    if r :| r in s.literals && |s.literals[r]| == 2 && (r in s0.literals ==> |s0.literals[r]| > 2) {
      assert r != c && t.literals[r] == s.literals[r];
    }
    if r :| r in t.literals && |t.literals[r]| == 2 && (r in s0.literals ==> |s0.literals[r]| > 2) {
      if r in s.literals && r != c {
        assert |s.literals[r]| == 2;
      }
    }
    if r :| r in t.literals && |t.literals[r]| == 2 && (r in s.literals ==> |s.literals[r]| > 2) {
      assert r in s.literals ==> r == c;
    }
  }

  // --------------------------------------------------------------- the turns

  lemma ReducedRewritten(c: Clause, clause: Clause, vals: map<int, bool>, reprs: map<Lit, Lit>)
    requires Rewritten(c, |c|, clause, vals, reprs)
    ensures Reduced(c, clause, vals, reprs)
  {
    forall x | x in clause
      ensures exists l :: l in c && l in reprs && reprs[l] == x
    {
      var j :| 0 <= j < |c| && Becomes(c[j], x, vals, reprs);
      assert c[j] in c;
    }
  }

  lemma KeepTurn(s: Database, c: nat, reprs: map<Lit, Lit>)
    requires c in s.literals && (c in s.garbage || OwnLiterals(s.literals[c], reprs))
    ensures Turn(s, s, c, reprs)
  {
  }

  lemma DropTurn(s: Database, c: nat, reprs: map<Lit, Lit>)
    requires Remains(c, s) && !OwnLiterals(s.literals[c], reprs) && Obvious(s.literals[c], s.vals, reprs)
    ensures Turn(s, s.(garbage := s.garbage + {c}), c, reprs)
  {
    hide OwnLiterals, Obvious;
  }

  lemma UnitTurn(s: Database, c: nat, l: Lit, reprs: map<Lit, Lit>)
    requires Remains(c, s) && !OwnLiterals(s.literals[c], reprs)
    requires Rewritten(s.literals[c], |s.literals[c]|, [l], s.vals, reprs) && Val(l, s.vals) == 0
    ensures Turn(s, s.(garbage := s.garbage + {c}, vals := s.vals[Var(l) := l > 0]), c, reprs)
  {
    hide OwnLiterals;
    var t := s.(garbage := s.garbage + {c}, vals := s.vals[Var(l) := l > 0]);
    assert l in [l];
    var j :| 0 <= j < |s.literals[c]| && Becomes(s.literals[c][j], l, s.vals, reprs);
    assert s.literals[c][j] in s.literals[c] && Val(l, t.vals) > 0;
    assert Obvious(s.literals[c], t.vals, reprs);
  }

  /** Clause `d` replaces clause `c`. */
  ghost function Replaced(s: Database, c: nat, d: nat, clause: Clause): Database {
    Database(s.literals[d := clause], s.garbage + {c}, if c in s.redundant then s.redundant + {d} else s.redundant,
      s.vals, s.unsat)
  }

  lemma ReplaceTurn(s: Database, c: nat, d: nat, clause: Clause, reprs: map<Lit, Lit>)
    requires Remains(c, s) && !OwnLiterals(s.literals[c], reprs)
    requires Rewritten(s.literals[c], |s.literals[c]|, clause, s.vals, reprs)
    requires d !in s.literals && d !in s.garbage && d !in s.redundant
    ensures Turn(s, Replaced(s, c, d, clause), c, reprs)
    ensures NewBinary(s, Replaced(s, c, d, clause)) <==> |clause| == 2
  {
    hide OwnLiterals, Reduced, Rewritten;
    ReducedRewritten(s.literals[c], clause, s.vals, reprs);
    var t := Replaced(s, c, d, clause);
    assert t.literals[d] == clause && StandsFor(d, c, s, t, reprs);
  }

  lemma ShrinkTurn(s: Database, c: nat, clause: Clause, reprs: map<Lit, Lit>)
    requires Remains(c, s) && !OwnLiterals(s.literals[c], reprs)
    requires Rewritten(s.literals[c], |s.literals[c]|, clause, s.vals, reprs)
    ensures Turn(s, s.(literals := s.literals[c := clause]), c, reprs)
    ensures NewBinary(s, s.(literals := s.literals[c := clause])) <==> |clause| == 2 && |s.literals[c]| > 2
  {
    hide OwnLiterals, Reduced, Rewritten;
    ReducedRewritten(s.literals[c], clause, s.vals, reprs);
    var t := s.(literals := s.literals[c := clause]);
    assert t.literals[c] == clause && StandsFor(c, c, s, t, reprs);
  }

  /** The clauses postponed count as garbage. */
  ghost function With(s: Database, postponed: set<nat>): Database {
    s.(garbage := s.garbage + postponed)
  }

  lemma SameNew(s: Database, s1: Database, t: Database, t1: Database)
    requires s1.literals == s.literals && t1.literals == t.literals
    ensures NewBinary(s, t) <==> NewBinary(s1, t1)
  {
  }

  lemma NothingNew(s: Database, t: Database)
    requires t.literals == s.literals
    ensures !NewBinary(s, t)
  {
  }
}

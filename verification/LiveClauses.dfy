/** The clauses a proof has added and not deleted, as literal sets, and how the
    clauses that the checker stores represent them. */
module LiveClauses {
  import opened Logic
  import opened Clauses
  import opened Propagation
  import opened Simplify

  /** The clause is true in all models of the values, which are never taken back. */
  ghost predicate TrivialSet(c: set<Lit>, vals: map<int, bool>) {
    exists l :: l in c && (Neg(l) in c || Val(l, vals) > 0)
  }

  ghost function Copies(literals: map<nat, Clause>, garbage: set<nat>, c: set<Lit>): set<nat> {
    set r | r in literals && r !in garbage && Lits(literals[r]) == c
  }

  /** Of every clause that is not trivial there are as many copies as were added
      and not deleted. */
  ghost predicate Tracks(literals: map<nat, Clause>, garbage: set<nat>, vals: map<int, bool>,
        added: multiset<set<Lit>>) {
    forall c :: !TrivialSet(c, vals) ==> |Copies(literals, garbage, c)| == added[c]
  }

  /** The clause is satisfied, or two of its literals are unassigned. */
  ghost predicate Settled(c: set<Lit>, vals: map<int, bool>) {
    || (exists l :: l in c && Val(l, vals) > 0)
    || (exists l, k :: l in c && k in c && l != k && Val(l, vals) == 0 && Val(k, vals) == 0)
  }

  lemma TrivialLits(c: Clause, vals: map<int, bool>)
    ensures Trivial(c, vals) <==> TrivialSet(Lits(c), vals)
  {
    assert forall l :: l in c <==> l in Lits(c);
  }

  lemma TrivialLater(c: set<Lit>, vals0: map<int, bool>, vals: map<int, bool>)
    requires TrivialSet(c, vals0) && Below(vals0, vals)
    ensures TrivialSet(c, vals)
  {
  }

  lemma NothingTracked(vals: map<int, bool>)
    ensures Tracks(map[], {}, vals, multiset{})
  {
    forall c: set<Lit>
      ensures Copies(map[], {}, c) == {}
    {
    }
  }

  /** Reordering literals and assigning variables changes nothing. */
  lemma TracksReordered(before: map<nat, Clause>, now: map<nat, Clause>, garbage: set<nat>, vals0: map<int, bool>,
        vals: map<int, bool>, added: multiset<set<Lit>>)
    requires Tracks(before, garbage, vals0, added) && Reordered(now, before) && Below(vals0, vals)
    ensures Tracks(now, garbage, vals, added)
  {
    hide TrivialSet, Reordered, Below, Lits;
    forall c | !TrivialSet(c, vals)
      ensures |Copies(now, garbage, c)| == added[c]
    {
      if TrivialSet(c, vals0) {
        TrivialLater(c, vals0, vals);
      }
      SameCopies(before, now, garbage, c);
    }
  }

  lemma SameCopies(before: map<nat, Clause>, now: map<nat, Clause>, garbage: set<nat>, c: set<Lit>)
    requires Reordered(now, before)
    ensures Copies(now, garbage, c) == Copies(before, garbage, c)
  {
    hide Lits;
    forall r | r in now
      ensures Lits(now[r]) == Lits(before[r])
    {
      ReorderedLits(now, before, r);
    }
  }

  /** Only satisfied clauses have gone. */
  lemma TracksCollected(before: map<nat, Clause>, garbage0: set<nat>, now: map<nat, Clause>, garbage: set<nat>,
        vals: map<int, bool>, added: multiset<set<Lit>>)
    requires Tracks(before, garbage0, vals, added) && garbage == {}
    requires forall r :: r in now ==> r in before && r !in garbage0 && now[r] == before[r]
    requires forall r :: r in before && r !in garbage0 && !HasTrue(before[r], vals) ==> r in now
    ensures Tracks(now, garbage, vals, added)
  {
    forall c | !TrivialSet(c, vals)
      ensures |Copies(now, garbage, c)| == added[c]
    {
      forall r | r in before && Lits(before[r]) == c
        ensures !HasTrue(before[r], vals)
      {
        assert forall l :: l in before[r] ==> l in c;
      }
      assert Copies(now, garbage, c) == Copies(before, garbage0, c);
    }
  }

  /** A clause that is trivial need not be stored, and may be deleted. */
  lemma TracksTrivial(literals: map<nat, Clause>, garbage: set<nat>, vals: map<int, bool>, added: multiset<set<Lit>>,
        c: set<Lit>)
    requires Tracks(literals, garbage, vals, added) && TrivialSet(c, vals)
    ensures Tracks(literals, garbage, vals, added + multiset{c})
    ensures Tracks(literals, garbage, vals, added - multiset{c})
  {
    hide TrivialSet;
  }

  /** One more clause is stored. */
  lemma TracksStored(before: map<nat, Clause>, now: map<nat, Clause>, garbage: set<nat>, vals: map<int, bool>,
        added: multiset<set<Lit>>, r: nat, c: set<Lit>)
    requires Tracks(before, garbage, vals, added) && r !in before && r !in garbage && r in now && Lits(now[r]) == c
    requires now.Keys == before.Keys + {r} && forall q :: q in before ==> now[q] == before[q]
    ensures Tracks(now, garbage, vals, added + multiset{c})
  {
    hide TrivialSet, Lits;
    forall d | !TrivialSet(d, vals)
      ensures |Copies(now, garbage, d)| == (added + multiset{c})[d]
    {
      CopiesStored(before, now, garbage, r, d);
    }
  }

  lemma InCopies(literals: map<nat, Clause>, garbage: set<nat>, d: set<Lit>)
    ensures forall q :: q in Copies(literals, garbage, d) <==>
      q in literals.Keys && q !in garbage && Lits(literals[q]) == d
  {
    hide Lits;
  }

  lemma CopiesStored(before: map<nat, Clause>, now: map<nat, Clause>, garbage: set<nat>, r: nat, d: set<Lit>)
    requires r !in before && r !in garbage && r in now
    requires now.Keys == before.Keys + {r} && forall q :: q in before ==> now[q] == before[q]
    ensures |Copies(now, garbage, d)| == |Copies(before, garbage, d)| + if Lits(now[r]) == d then 1 else 0
  {
    hide Lits, Copies;
    InCopies(before, garbage, d);
    InCopies(now, garbage, d);
    var less, more := Copies(before, garbage, d), Copies(now, garbage, d);
    var extra := if Lits(now[r]) == d then {r} else {};
    forall q
      ensures q in more <==> q in less + extra
    {
      assert q in now.Keys <==> q in before.Keys || q == r;
      if q in before {
        assert now[q] == before[q];
      }
    }
    assert more == less + extra && r !in less;
  }

  /** One copy of a clause is deleted. */
  lemma TracksDeleted(literals: map<nat, Clause>, garbage: set<nat>, vals: map<int, bool>, added: multiset<set<Lit>>,
        r: nat)
    requires Tracks(literals, garbage, vals, added) && r in literals && r !in garbage
    ensures Tracks(literals, garbage + {r}, vals, added - multiset{Lits(literals[r])})
  {
    hide TrivialSet, Lits;
    var c := Lits(literals[r]);
    forall d | !TrivialSet(d, vals)
      ensures |Copies(literals, garbage + {r}, d)| == (added - multiset{c})[d]
    {
      var before, now := Copies(literals, garbage, d), Copies(literals, garbage + {r}, d);
      if c == d {
        assert now == before - {r} && r in before;
      } else {
        assert now == before;
      }
    }
  }

  /** So a fixpoint over the clauses stored is one over the clauses added. */
  lemma FixpointOfAdded(literals: map<nat, Clause>, garbage: set<nat>, vals0: map<int, bool>, vals: map<int, bool>,
        added: multiset<set<Lit>>)
    requires Tracks(literals, garbage, vals0, added) && Fixpoint(literals, garbage, vals) && Below(vals0, vals)
    requires forall r :: r in literals && r !in garbage ==> NoDuplicates(literals[r])
    ensures forall c :: c in added ==> Settled(c, vals)
  {
    hide Lits, Below, Fixpoint, Tracks;
    forall c | c in added
      ensures Settled(c, vals)
    {
      if TrivialSet(c, vals0) {
        TrivialLater(c, vals0, vals);
        TrivialSettled(c, vals);
      } else {
        var r := CopyOf(literals, garbage, vals0, added, c);
        CopySettled(literals, garbage, vals, r);
      }
    }
  }

  lemma CopyOf(literals: map<nat, Clause>, garbage: set<nat>, vals: map<int, bool>, added: multiset<set<Lit>>,
        c: set<Lit>) returns (r: nat)
    requires Tracks(literals, garbage, vals, added) && c in added && !TrivialSet(c, vals)
    ensures r in literals && r !in garbage && Lits(literals[r]) == c
  {
    assert Copies(literals, garbage, c) != {};
    r :| r in Copies(literals, garbage, c);
  }

  lemma TrivialSettled(c: set<Lit>, vals: map<int, bool>)
    requires TrivialSet(c, vals)
    ensures Settled(c, vals)
  {
    var l :| l in c && (Neg(l) in c || Val(l, vals) > 0);
    if Val(l, vals) <= 0 && Neg(l) in c {
      assert Val(Neg(l), vals) == 0 - Val(l, vals) && l != Neg(l);
    }
  }

  lemma CopySettled(literals: map<nat, Clause>, garbage: set<nat>, vals: map<int, bool>, r: nat)
    requires r in literals && r !in garbage && NoDuplicates(literals[r]) && Fixpoint(literals, garbage, vals)
    ensures Settled(Lits(literals[r]), vals)
  {
    var c := literals[r];
    if HasTrue(c, vals) {
      var l :| l in c && Val(l, vals) > 0;
      assert l in Lits(c);
    } else {
      var i, j :| 0 <= i < j < |c| && Val(c[i], vals) == 0 && Val(c[j], vals) == 0;
      assert c[i] in Lits(c) && c[j] in Lits(c) && c[i] != c[j];
    }
  }
}

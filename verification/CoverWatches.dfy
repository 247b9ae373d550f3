/** Why the watches miss no asymmetric literal: a clause is passed over only when it
    has a true literal or is watched by two literals that are not visited as false. */
module CoverWatches {
  import opened Logic
  import opened Reconstruction
  import opened Clauses
  import opened Watching

  /** No clause is watched by a literal that is false at level zero, unless another
      one is true there. */
  ghost predicate RootWatched(literals: map<nat, Clause>, garbage: set<nat>, root: map<int, bool>) {
    forall r :: r in literals && r !in garbage ==> WatchesOpen(literals[r], root)
  }

  ghost predicate WatchesOpen(c: Clause, root: map<int, bool>) {
    |c| >= 2 && (HasTrue(c, root) || (Val(c[0], root) >= 0 && Val(c[1], root) >= 0))
  }

  /** The false literals `done` have been visited: what they watched has moved on. */
  ghost predicate AllPassed(literals: map<nat, Clause>, garbage: set<nat>, ignore: nat, vals: map<int, bool>,
        done: set<Lit>) {
    forall r :: r in literals && r !in garbage && r != ignore ==> Passed(literals[r], vals, done)
  }

  ghost predicate Passed(c: Clause, vals: map<int, bool>, done: set<Lit>) {
    |c| >= 2 && (HasTrue(c, vals) || (c[0] !in done && c[1] !in done))
  }

  /** While `lit` is being visited: what it still watches is in the rest of its list. */
  ghost predicate Partly(literals: map<nat, Clause>, garbage: set<nat>, ignore: nat, vals: map<int, bool>,
        done: set<Lit>, lit: Lit, rest: seq<Watch>) {
    forall r :: r in literals && r !in garbage && r != ignore ==>
      Passed(literals[r], vals, done) && (Handled(literals[r], vals, lit) || Has(rest, r))
  }

  /** A clause watches what it did, or a literal that had no value. */
  ghost predicate Rewatched(before: Clause, now: Clause, vals0: map<int, bool>) {
    && |before| == |now| >= 2 && (forall l :: l in now <==> l in before)
    && (now[0] in before[..2] || Val(now[0], vals0) == 0) && (now[1] in before[..2] || Val(now[1], vals0) == 0)
  }

  /** After a visit the clause has a true literal, or `lit` watches it no more. */
  ghost predicate Handled(c: Clause, vals: map<int, bool>, lit: Lit) {
    |c| >= 2 && (HasTrue(c, vals) || (c[0] != lit && c[1] != lit))
  }

  ghost predicate KeepsValues(vals0: map<int, bool>, vals: map<int, bool>) {
    forall l :: Val(l, vals0) != 0 ==> Val(l, vals) == Val(l, vals0)
  }

  ghost predicate OthersSame(now: map<nat, Clause>, before: map<nat, Clause>, r: nat) {
    now.Keys == before.Keys && forall q :: q in now && q != r ==> now[q] == before[q]
  }

  lemma StillTrue(c: Clause, d: Clause, vals0: map<int, bool>, vals: map<int, bool>)
    requires KeepsValues(vals0, vals) && HasTrue(c, vals0) && forall l :: l in c ==> l in d
    ensures HasTrue(d, vals)
  {
  }

  lemma RootWatchedStep(before: map<nat, Clause>, now: map<nat, Clause>, garbage: set<nat>, root: map<int, bool>,
        r: nat, vals0: map<int, bool>)
    requires RootWatched(before, garbage, root) && OthersSame(now, before, r) && KeepsValues(root, vals0)
    requires r in now ==> Rewatched(before[r], now[r], vals0)
    ensures RootWatched(now, garbage, root)
  {
    forall q | q in now && q !in garbage
      ensures WatchesOpen(now[q], root)
    {
      assert WatchesOpen(before[q], root);
    }
  }

  lemma PassedStep(before: Clause, now: Clause, vals0: map<int, bool>, vals: map<int, bool>, done: set<Lit>)
    requires Passed(before, vals0, done) && Rewatched(before, now, vals0) && KeepsValues(vals0, vals)
    requires forall l :: l in done ==> Val(l, vals0) < 0
    ensures Passed(now, vals, done)
  {
    if HasTrue(before, vals0) {
      StillTrue(before, now, vals0, vals);
    }
  }

  /** One watch has been visited. */
  lemma PartlyStep(before: map<nat, Clause>, now: map<nat, Clause>, garbage: set<nat>, ignore: nat,
        vals0: map<int, bool>, vals: map<int, bool>, done: set<Lit>, lit: Lit, w: Watch, rest: seq<Watch>)
    requires Partly(before, garbage, ignore, vals0, done, lit, [w] + rest)
    requires OthersSame(now, before, w.clause) && KeepsValues(vals0, vals)
    requires w.clause in now ==> Rewatched(before[w.clause], now[w.clause], vals0)
    requires w.clause in now && w.clause !in garbage && w.clause != ignore ==> Handled(now[w.clause], vals, lit)
    requires forall l :: l in done ==> Val(l, vals0) < 0
    ensures Partly(now, garbage, ignore, vals, done, lit, rest)
  {
    hide Has, HasTrue, Rewatched, Passed, KeepsValues, Handled;
    forall r | r in now && r !in garbage && r != ignore
      ensures Passed(now[r], vals, done)
      ensures Handled(now[r], vals, lit) || Has(rest, r)
    {
      if r == w.clause {
        PassedStep(before[r], now[r], vals0, vals, done);
      } else {
        PassedLater(now[r], vals0, vals, done);
        HandledLater(now[r], vals0, vals, lit);
        HasOne([], w, rest, r);
        assert [] + [w] + rest == [w] + rest;
        NoneListed(r);
      }
    }
  }

  lemma PassedLater(c: Clause, vals0: map<int, bool>, vals: map<int, bool>, done: set<Lit>)
    requires Passed(c, vals0, done) && KeepsValues(vals0, vals)
    ensures Passed(c, vals, done)
  {
    if HasTrue(c, vals0) {
      StillTrue(c, c, vals0, vals);
    }
  }

  lemma HandledLater(c: Clause, vals0: map<int, bool>, vals: map<int, bool>, lit: Lit)
    requires KeepsValues(vals0, vals)
    ensures Handled(c, vals0, lit) ==> Handled(c, vals, lit)
  {
    if HasTrue(c, vals0) {
      StillTrue(c, c, vals0, vals);
    }
  }

  /** When the list of `lit` is taken up, everything it watches is in there. */
  lemma PartlyStarts(literals: map<nat, Clause>, garbage: set<nat>, ignore: nat, vals: map<int, bool>, done: set<Lit>,
        lit: Lit, watches: WatchLists)
    requires Watched(literals, garbage, watches) && lit in watches
    requires AllPassed(literals, garbage, ignore, vals, done)
    ensures Partly(literals, garbage, ignore, vals, done, lit, watches[lit])
  {
    hide Has, HasTrue, AllLists;
    forall r | r in literals && r !in garbage && r != ignore
      ensures Handled(literals[r], vals, lit) || Has(watches[lit], r)
    {
      assert Passed(literals[r], vals, done) && WatchedClause(r, literals[r], watches);
    }
  }

  lemma PartlyEnds(literals: map<nat, Clause>, garbage: set<nat>, ignore: nat, vals: map<int, bool>, done: set<Lit>,
        lit: Lit)
    requires Partly(literals, garbage, ignore, vals, done, lit, [])
    ensures AllPassed(literals, garbage, ignore, vals, done + {lit})
  {
    hide HasTrue;
    forall r | r in literals && r !in garbage && r != ignore
      ensures Passed(literals[r], vals, done + {lit})
    {
      NoneListed(r);
    }
  }

  lemma AllPassedLater(literals: map<nat, Clause>, garbage: set<nat>, ignore: nat,
        vals0: map<int, bool>, vals: map<int, bool>, done: set<Lit>)
    requires AllPassed(literals, garbage, ignore, vals0, done) && KeepsValues(vals0, vals)
    ensures AllPassed(literals, garbage, ignore, vals, done)
  {
    hide HasTrue, KeepsValues;
    forall r | r in literals && r !in garbage && r != ignore
      ensures Passed(literals[r], vals, done)
    {
      PassedLater(literals[r], vals0, vals, done);
    }
  }

  /** Nothing has been visited. */
  lemma NothingPassed(literals: map<nat, Clause>, garbage: set<nat>, ignore: nat, vals: map<int, bool>)
    requires forall r :: r in literals ==> |literals[r]| >= 2
    ensures AllPassed(literals, garbage, ignore, vals, {})
  {
  }

  lemma NothingMoved(literals: map<nat, Clause>, vals: map<int, bool>, r: nat)
    requires r in literals && |literals[r]| >= 2
    ensures OthersSame(literals, literals, r) && Rewatched(literals[r], literals[r], vals) && KeepsValues(vals, vals)
  {
    var c := literals[r];
    assert c[..2][0] == c[0] && c[..2][1] == c[1];
  }

  lemma TrueHandles(c: Clause, vals: map<int, bool>, lit: Lit, l: Lit)
    requires |c| >= 2 && l in c && Val(l, vals) > 0
    ensures Handled(c, vals, lit)
  {
  }

  lemma MovedOne(before: map<nat, Clause>, now: map<nat, Clause>, r: nat)
    requires r in before && r in now && now == before[r := now[r]]
    ensures OthersSame(now, before, r)
  {
  }

  lemma KeepsMore(root: map<int, bool>, vals0: map<int, bool>, vals: map<int, bool>, done: set<Lit>)
    requires KeepsValues(root, vals0) && KeepsValues(vals0, vals) && forall l :: l in done ==> Val(l, vals0) < 0
    ensures KeepsValues(root, vals) && forall l :: l in done ==> Val(l, vals) < 0
  {
  }

  /** The watched literals have been put in order. */
  ghost predicate Swapped(before: Clause, now: Clause) {
    && |before| == |now| >= 2 && (forall l :: l in now <==> l in before)
    && now[0] in before[..2] && now[1] in before[..2]
  }

  lemma SecondSwapped(c: Clause, lit: Lit)
    requires |c| > 2 && (lit == c[0] || lit == c[1])
    ensures Swapped(c, SecondWatch(c, lit))
    ensures NoDuplicates(c) ==> NoDuplicates(SecondWatch(c, lit))
  {
    var d := SecondWatch(c, lit);
    SameLiterals(c, d);
    assert d[0] in {c[0], c[1]} && d[1] in {c[0], c[1]};
    assert c[..2] == [c[0], c[1]];
  }

  lemma SwappedRewatched(c: Clause, d: Clause, e: Clause, vals: map<int, bool>)
    requires Swapped(c, d) && Rewatched(d, e, vals)
    ensures Rewatched(c, e, vals)
  {
    assert d[..2] == [d[0], d[1]];
  }

  /** The second literal is exchanged for one without a value. */
  lemma ExchangeRewatched(c: Clause, k: nat, vals: map<int, bool>)
    requires 2 <= k < |c| && NoDuplicates(c) && Val(c[k], vals) == 0
    ensures Rewatched(c, Exchange(c, 1, k), vals) && Handled(Exchange(c, 1, k), vals, c[1])
  {
    SameLiterals(c, Exchange(c, 1, k));
    assert c[..2][0] == c[0];
    assert c[0] != c[1] && c[k] != c[1];
  }

  lemma KeepsFalse(vals0: map<int, bool>, vals: map<int, bool>, l: Lit)
    requires KeepsValues(vals0, vals) && Val(l, vals0) < 0
    ensures Val(l, vals) < 0
  {
  }

  lemma OthersTrans(a: map<nat, Clause>, b: map<nat, Clause>, c: map<nat, Clause>, r: nat)
    requires OthersSame(b, a, r) && OthersSame(c, b, r)
    ensures OthersSame(c, a, r)
  {
  }

  lemma AtWatch(literals: map<nat, Clause>, garbage: set<nat>, watches: WatchLists, lit: Lit, a: seq<Watch>, w: Watch,
        b: seq<Watch>)
    requires Watched(literals, garbage, watches[lit := a + [w] + b])
    ensures w.clause in literals && |literals[w.clause]| >= 2 && w.blit in literals[w.clause]
  {
    var now := watches[lit := a + [w] + b];
    assert ListOf(lit, now[lit], literals);
    assert now[lit][|a|] == w && WatchOf(now[lit][|a|], lit, literals);
  }

  // ------------------------------------------------------------------- the end

  /** No other clause has all literals false but one: it has a true literal, or two
      without a value. */
  ghost predicate Closed(literals: map<nat, Clause>, garbage: set<nat>, ignore: nat, vals: map<int, bool>) {
    forall r :: r in literals && r !in garbage && r != ignore ==>
      HasTrue(literals[r], vals) || (|literals[r]| >= 2 && Val(literals[r][0], vals) == 0 == Val(literals[r][1], vals))
  }

  /** All false literals have been visited. */
  lemma ClosedAtEnd(literals: map<nat, Clause>, garbage: set<nat>, ignore: nat, vals: map<int, bool>, done: set<Lit>,
        root: map<int, bool>)
    requires RootWatched(literals, garbage, root) && AllPassed(literals, garbage, ignore, vals, done)
    requires KeepsValues(root, vals) && forall l :: Val(l, vals) < 0 ==> l in done || Val(l, root) < 0
    ensures Closed(literals, garbage, ignore, vals)
  {
    forall r | r in literals && r !in garbage && r != ignore && !HasTrue(literals[r], vals)
      ensures |literals[r]| >= 2 && Val(literals[r][0], vals) == 0 == Val(literals[r][1], vals)
    {
      var c := literals[r];
      assert Passed(c, vals, done) && WatchesOpen(c, root);
      if HasTrue(c, root) {
        StillTrue(c, c, root, vals);
      }
      assert c[0] in c && c[1] in c;
    }
  }

  /** Neither is the clause blocked on `lit`, nor is there a literal to cover: some
      candidates are open, and they have no unassigned literal in common. */
  ghost predicate Stuck(frozen: set<int>, f: Formula, lit: Lit, vals: map<int, bool>) {
    Var(lit) in frozen ||
    ((exists d :: OpenCandidate(f, lit, vals, d)) &&
     forall x :: Val(x, vals) == 0 ==> exists d :: OpenCandidate(f, lit, vals, d) && x !in d)
  }

  /** A clause with the negation of `lit` and no other true literal. */
  ghost predicate OpenCandidate(f: Formula, lit: Lit, vals: map<int, bool>, d: set<Lit>) {
    d in f && Neg(lit) in d && forall k :: k in d && k != Neg(lit) ==> Val(k, vals) <= 0
  }

  /** The candidate clause as it was when nothing could be added any more. */
  datatype Extent = Extent(vals: map<int, bool>, covered: Clause)

  /** Nothing can be added to the extended clause, and it is not blocked. */
  ghost predicate Exhausted(frozen: set<int>, f: Formula, cand: Clause, root: map<int, bool>, x: Extent) {
    && KeepsValues(root, x.vals) && (forall l :: l in cand && Val(l, root) == 0 ==> l in x.covered)
    && forall l :: l in x.covered ==> Val(l, x.vals) < 0 && Stuck(frozen, f, l, x.vals)
  }
}

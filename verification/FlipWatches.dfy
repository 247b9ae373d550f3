/** Watches under a total assignment: with every clause satisfied, each clause
    can be watched by a true literal, and then a literal may be flipped if no
    clause depends on it. */
module FlipWatches {
  import opened Logic
  import opened Clauses
  import opened Watching

  predicate TrueWatch(c: Clause, vals: map<int, bool>) {
    |c| >= 2 && (Val(c[0], vals) > 0 || Val(c[1], vals) > 0)
  }

  /** Every clause is watched by a true literal. */
  ghost predicate Supported(literals: map<nat, Clause>, garbage: set<nat>, vals: map<int, bool>) {
    forall r :: r in literals && r !in garbage ==> TrueWatch(literals[r], vals)
  }

  ghost predicate AllSatisfied(literals: map<nat, Clause>, garbage: set<nat>, vals: map<int, bool>) {
    forall r :: r in literals && r !in garbage ==> HasTrue(literals[r], vals)
  }

  lemma SupportedSatisfies(literals: map<nat, Clause>, garbage: set<nat>, vals: map<int, bool>)
    requires Supported(literals, garbage, vals)
    ensures AllSatisfied(literals, garbage, vals)
  {
    forall r | r in literals && r !in garbage
      ensures HasTrue(literals[r], vals)
    {
      var c := literals[r];
      assert TrueWatch(c, vals) && c[0] in c && c[1] in c;
    }
  }

  /** The literals of the clauses that are not garbage are assigned. */
  ghost predicate Total(literals: map<nat, Clause>, garbage: set<nat>, vals: map<int, bool>) {
    forall r :: r in literals && r !in garbage ==> |literals[r]| >= 2 && forall l :: l in literals[r] ==> Var(l) in vals
  }

  lemma TotalReordered(now: map<nat, Clause>, before: map<nat, Clause>, garbage: set<nat>, vals: map<int, bool>)
    requires Reordered(now, before) && Total(before, garbage, vals)
    ensures Total(now, garbage, vals)
  {
    forall r | r in now && r !in garbage
      ensures |now[r]| >= 2 && forall l :: l in now[r] ==> Var(l) in vals
    {
      ReorderedLits(now, before, r);
      SameSize(now, before, r);
    }
  }

  lemma SatisfiedReordered(now: map<nat, Clause>, before: map<nat, Clause>, garbage: set<nat>, vals: map<int, bool>)
    requires Reordered(now, before) && AllSatisfied(before, garbage, vals)
    ensures AllSatisfied(now, garbage, vals)
  {
    forall r | r in now && r !in garbage
      ensures HasTrue(now[r], vals)
    {
      ReorderedLits(now, before, r);
      assert HasTrue(before[r], vals);
    }
  }

  // ------------------------------------------------------------- repropagation

  /** The watch `x` of clause `r` is going to be visited. */
  ghost predicate Awaits(x: Lit, r: nat, todo: seq<Lit>, lit: Lit, rest: seq<Watch>) {
    Neg(x) in todo || (x == lit && Has(rest, r))
  }

  /** A clause without a true watch has both watches ahead: on the trail, or in
      the rest of the list being scanned. */
  ghost predicate Behind(literals: map<nat, Clause>, garbage: set<nat>, vals: map<int, bool>, todo: seq<Lit>, lit: Lit,
        rest: seq<Watch>) {
    forall r :: r in literals && r !in garbage ==>
      || TrueWatch(literals[r], vals)
      || (&& |literals[r]| >= 2
          && Awaits(literals[r][0], r, todo, lit, rest) && Awaits(literals[r][1], r, todo, lit, rest))
  }

  lemma BehindStart(literals: map<nat, Clause>, garbage: set<nat>, vals: map<int, bool>, watches: WatchLists, p: Lit,
        todo: seq<Lit>, x: Lit)
    requires Behind(literals, garbage, vals, [p] + todo, x, []) && Watched(literals, garbage, watches)
    requires Neg(p) in watches
    ensures Behind(literals, garbage, vals, todo, Neg(p), watches[Neg(p)])
  {
    hide Has, AllLists;
    NoneListed(0);
    forall r | r in literals && r !in garbage && !TrueWatch(literals[r], vals)
      ensures |literals[r]| >= 2
      ensures Awaits(literals[r][0], r, todo, Neg(p), watches[Neg(p)])
      ensures Awaits(literals[r][1], r, todo, Neg(p), watches[Neg(p)])
    {
      assert WatchedClause(r, literals[r], watches);
      NoneListed(r);
    }
  }

  lemma BehindEnd(literals: map<nat, Clause>, garbage: set<nat>, vals: map<int, bool>, todo: seq<Lit>, lit: Lit, x: Lit)
    requires Behind(literals, garbage, vals, todo, lit, [])
    ensures Behind(literals, garbage, vals, todo, x, [])
  {
    forall r | r in literals && r !in garbage && !TrueWatch(literals[r], vals)
      ensures |literals[r]| >= 2
      ensures Awaits(literals[r][0], r, todo, x, []) && Awaits(literals[r][1], r, todo, x, [])
    {
      NoneListed(r);
    }
  }

  lemma BehindVisit(literals: map<nat, Clause>, garbage: set<nat>, vals: map<int, bool>, todo: seq<Lit>, lit: Lit,
        w: Watch, b: seq<Watch>)
    requires Behind(literals, garbage, vals, todo, lit, [w] + b)
    requires w.clause in literals && (w.clause in garbage || TrueWatch(literals[w.clause], vals))
    ensures Behind(literals, garbage, vals, todo, lit, b)
  {
    hide Has;
    forall r | r in literals && r !in garbage && !TrueWatch(literals[r], vals)
      ensures |literals[r]| >= 2
      ensures Awaits(literals[r][0], r, todo, lit, b) && Awaits(literals[r][1], r, todo, lit, b)
    {
      assert r != w.clause;
      HasOne([], w, b, r);
      NoneListed(r);
      assert [] + [w] + b == [w] + b;
    }
  }

  lemma BehindChange(literals: map<nat, Clause>, garbage: set<nat>, vals: map<int, bool>, todo: seq<Lit>, lit: Lit,
        rest: seq<Watch>, r: nat, d: Clause)
    requires Behind(literals, garbage, vals, todo, lit, rest) && r in literals && TrueWatch(d, vals)
    ensures Behind(literals[r := d], garbage, vals, todo, lit, rest)
  {
    hide TrueWatch, Awaits;
  }

  lemma NothingBehind(literals: map<nat, Clause>, garbage: set<nat>, vals: map<int, bool>, lit: Lit)
    ensures Supported(literals, garbage, vals) <==> Behind(literals, garbage, vals, [], lit, [])
  {
    hide TrueWatch;
    forall r
      ensures !Has([], r)
    {
      NoneListed(r);
    }
  }

  // ---------------------------------------------------------------- rewatching

  /** The clause with its watches `other` and the literal at `k`, and `lit` moved
      to position `k`. */
  function Replaced(c: Clause, lit: Lit, k: nat): (d: Clause)
    requires 2 <= k < |c| && (lit == c[0] || lit == c[1])
    ensures |d| == |c| && multiset(d) == multiset(c)
    ensures d[0] == (if c[0] == lit then c[1] else c[0]) && d[1] == c[k] && d[k] == lit
  {
    Exchange(SecondWatch(c, lit), 1, k)
  }

  lemma Rewatched(literals: map<nat, Clause>, garbage: set<nat>, watches: WatchLists, lit: Lit, a: seq<Watch>, w: Watch,
        b: seq<Watch>, k: nat)
    requires lit in watches && Watched(literals, garbage, watches[lit := a + [w] + b])
    requires w.clause in literals && w.clause !in garbage && 2 <= k < |literals[w.clause]|
    requires lit == literals[w.clause][0] || lit == literals[w.clause][1]
    ensures var r, c := w.clause, literals[w.clause];
      && c[k] in watches && c[k] != lit
      && var now := watches[c[k] := watches[c[k]] + [Watch(r, lit, |c|)]];
      && now.Keys == watches.Keys && now[lit] == watches[lit]
      && Watched(literals[r := Replaced(c, lit, k)], garbage, now[lit := a + b])
      && Reordered(literals[r := Replaced(c, lit, k)], literals)
  {
    hide Watched, Has, Moved, SecondWatch, Exchange;
    var r, c := w.clause, literals[w.clause];
    var lists := watches[lit := a + [w] + b];
    DifferentWatches(literals, garbage, lists, r);
    SwapWatches(literals, garbage, lists, r, lit);
    var c2 := SecondWatch(c, lit);
    var swapped := literals[r := c2];
    assert c2[k] == c[k];
    MoveWatch(swapped, garbage, watches, lit, a, w, b, k);
    ListsMoved(c2, watches, lit, a, w, b, k);
    assert swapped[r := Exchange(c2, 1, k)] == literals[r := Replaced(c, lit, k)];
  }

  /** No watch list has its own literal as a blocking literal. */
  ghost predicate ProperBlits(watches: WatchLists) {
    forall l :: l in watches ==> forall i :: 0 <= i < |watches[l]| ==> watches[l][i].blit != l
  }

  lemma BlitsMoved(watches: WatchLists, lit: Lit, n: Lit, w: Watch)
    requires ProperBlits(watches) && n in watches && w.blit != n
    ensures ProperBlits(watches[n := watches[n] + [w]])
  {
    var now: WatchLists := watches[n := watches[n] + [w]];
    forall l: Lit, i | l in now && 0 <= i < |now[l]|
      ensures now[l][i].blit != l
    {
      assert l in watches && (i < |watches[l]| ==> watches[l][i].blit != l);
    }
  }

  // ------------------------------------------------------------------- flipping

  /** `lit` is the only literal of `c` that is not false. */
  ghost predicate Sole(c: Clause, lit: Lit, vals: map<int, bool>) {
    lit in c && forall l :: l in c && l != lit ==> Val(l, vals) < 0
  }

  ghost predicate SomeSole(literals: map<nat, Clause>, garbage: set<nat>, lit: Lit, vals: map<int, bool>) {
    exists r :: r in literals && r !in garbage && Sole(literals[r], lit, vals)
  }

  ghost predicate BinaryFails(ws: seq<Watch>, vals: map<int, bool>) {
    exists i :: 0 <= i < |ws| && ws[i].size == 2 && Val(ws[i].blit, vals) <= 0
  }

  /** Why `lit` cannot be flipped: some clause depends on it, or a binary watch
      has a blocking literal that is not true, even where its clause is garbage. */
  ghost predicate Stuck(literals: map<nat, Clause>, garbage: set<nat>, ws: seq<Watch>, lit: Lit, vals: map<int, bool>) {
    SomeSole(literals, garbage, lit, vals) || BinaryFails(ws, vals)
  }

  /** Short of binary garbage in the list of `lit`, only a clause that depends
      on `lit` stands in the way. */
  lemma StuckExactly(literals: map<nat, Clause>, garbage: set<nat>, watches: WatchLists, lit: Lit, vals: map<int, bool>)
    requires lit in watches && Watched(literals, garbage, watches) && Total(literals, garbage, vals)
    requires forall i :: 0 <= i < |watches[lit]| && watches[lit][i].size == 2 ==> watches[lit][i].clause !in garbage
    ensures Stuck(literals, garbage, watches[lit], lit, vals) <==> SomeSole(literals, garbage, lit, vals)
  {
    var ws := watches[lit];
    if i :| 0 <= i < |ws| && ws[i].size == 2 && Val(ws[i].blit, vals) <= 0 {
      assert ListOf(lit, ws, literals) && WatchOf(ws[i], lit, literals);
      var c := literals[ws[i].clause];
      assert WatchedClause(ws[i].clause, c, watches);
      assert Sole(c, lit, vals);
    }
  }

  lemma SomeSoleReordered(now: map<nat, Clause>, before: map<nat, Clause>, garbage: set<nat>, lit: Lit, vals: map<int,
        bool>)
    requires Reordered(now, before)
    ensures SomeSole(now, garbage, lit, vals) <==> SomeSole(before, garbage, lit, vals)
  {
    forall r | r in now
      ensures Sole(now[r], lit, vals) <==> Sole(before[r], lit, vals)
    {
      ReorderedLits(now, before, r);
    }
  }

  /** A watch of `c` other than `lit` is true. */
  predicate Spare(c: Clause, lit: Lit, vals: map<int, bool>) {
    |c| >= 2 && ((c[0] != lit && Val(c[0], vals) > 0) || (c[1] != lit && Val(c[1], vals) > 0))
  }

  /** The watches checked so far that are kept do not need `lit`. */
  ghost predicate Checked(literals: map<nat, Clause>, garbage: set<nat>, vals: map<int, bool>, lit: Lit,
        kept: seq<Watch>) {
    forall j :: 0 <= j < |kept| && kept[j].clause !in garbage ==>
      kept[j].clause in literals && Spare(literals[kept[j].clause], lit, vals)
  }

  /** With all watches of `lit` checked, no clause depends on `lit`. */
  lemma CheckedSpare(literals: map<nat, Clause>, garbage: set<nat>, watches: WatchLists, vals: map<int, bool>, lit: Lit,
        r: nat)
    requires lit in watches && Watched(literals, garbage, watches) && Supported(literals, garbage, vals)
    requires Checked(literals, garbage, vals, lit, watches[lit])
    requires r in literals && r !in garbage
    ensures Spare(literals[r], lit, vals)
  {
    var c := literals[r];
    assert WatchedClause(r, c, watches) && TrueWatch(c, vals);
    if c[0] == lit || c[1] == lit {
      assert Has(watches[lit], r);
      var j :| 0 <= j < |watches[lit]| && watches[lit][j].clause == r;
    }
  }

  lemma CheckedNotSole(literals: map<nat, Clause>, garbage: set<nat>, watches: WatchLists, vals: map<int, bool>,
        lit: Lit)
    requires lit in watches && Watched(literals, garbage, watches) && Supported(literals, garbage, vals)
    requires Checked(literals, garbage, vals, lit, watches[lit])
    ensures !SomeSole(literals, garbage, lit, vals)
  {
    forall r | r in literals && r !in garbage
      ensures !Sole(literals[r], lit, vals)
    {
      CheckedSpare(literals, garbage, watches, vals, lit, r);
      assert literals[r][0] in literals[r] && literals[r][1] in literals[r];
    }
  }

  /** Flipping `lit` then leaves every clause with a true watch. */
  lemma FlipSupports(literals: map<nat, Clause>, garbage: set<nat>, watches: WatchLists, vals: map<int, bool>, lit: Lit)
    requires lit in watches && Watched(literals, garbage, watches) && Supported(literals, garbage, vals)
    requires Checked(literals, garbage, vals, lit, watches[lit]) && Val(lit, vals) > 0
    ensures Supported(literals, garbage, SetFalse(lit, vals))
  {
    forall r | r in literals && r !in garbage
      ensures TrueWatch(literals[r], SetFalse(lit, vals))
    {
      CheckedSpare(literals, garbage, watches, vals, lit, r);
    }
  }

  lemma SupportedChange(literals: map<nat, Clause>, garbage: set<nat>, vals: map<int, bool>, r: nat, d: Clause)
    requires Supported(literals, garbage, vals) && TrueWatch(d, vals)
    ensures Supported(literals[r := d], garbage, vals)
  {
  }

  /** The clause that is rewatched has no other watch in the list. */
  lemma CheckedChange(literals: map<nat, Clause>, garbage: set<nat>, vals: map<int, bool>, watches: WatchLists,
        lit: Lit, a: seq<Watch>, w: Watch, b: seq<Watch>, d: Clause)
    requires Checked(literals, garbage, vals, lit, a) && lit in watches
    requires Watched(literals, garbage, watches[lit := a + [w] + b])
    ensures Checked(literals[w.clause := d], garbage, vals, lit, a)
  {
    var ws := watches[lit := a + [w] + b][lit];
    assert ListOf(lit, ws, literals);
    forall j | 0 <= j < |a|
      ensures a[j].clause != w.clause
    {
      assert ws[j] == a[j] && ws[|a|] == w;
    }
  }

  lemma CheckedMore(literals: map<nat, Clause>, garbage: set<nat>, vals: map<int, bool>, lit: Lit, a: seq<Watch>,
        w: Watch)
    requires Checked(literals, garbage, vals, lit, a)
    requires w.clause in garbage || (w.clause in literals && Spare(literals[w.clause], lit, vals))
    ensures Checked(literals, garbage, vals, lit, a + [w])
  {
  }

  /** What a watch in the list of `lit` says about its clause. */
  lemma WatchFacts(literals: map<nat, Clause>, garbage: set<nat>, watches: WatchLists, lit: Lit, a: seq<Watch>,
        w: Watch, b: seq<Watch>)
    requires lit in watches && Watched(literals, garbage, watches[lit := a + [w] + b])
    ensures WatchOf(w, lit, literals)
    ensures w.clause !in garbage ==> NoDuplicates(literals[w.clause])
    ensures w.clause !in garbage ==> forall l :: l in literals[w.clause] ==> l in watches
  {
    var lists := watches[lit := a + [w] + b];
    assert ListOf(lit, lists[lit], literals) && (a + [w] + b)[|a|] == w;
    assert w.clause !in garbage ==> WatchedClause(w.clause, literals[w.clause], lists);
  }

  /** Lists of true literals gain only watches of longer clauses. */
  ghost predicate Lengthened(now: WatchLists, before: WatchLists, vals: map<int, bool>) {
    && now.Keys == before.Keys
    && forall l :: l in now && Val(l, vals) > 0 ==> LongMore(now[l], before[l])
  }

  ghost predicate LongMore(now: seq<Watch>, before: seq<Watch>) {
    before <= now && forall i :: |before| <= i < |now| ==> now[i].size != 2
  }

  lemma LengthenedSame(ws: WatchLists, vals: map<int, bool>)
    ensures Lengthened(ws, ws, vals)
  {
  }

  lemma LengthenedTrans(a: WatchLists, b: WatchLists, c: WatchLists, vals: map<int, bool>)
    requires Lengthened(a, b, vals) && Lengthened(b, c, vals)
    ensures Lengthened(a, c, vals)
  {
    forall l | l in a && Val(l, vals) > 0
      ensures LongMore(a[l], c[l])
    {
      assert LongMore(a[l], b[l]) && LongMore(b[l], c[l]);
      forall i | |c[l]| <= i < |a[l]|
        ensures a[l][i].size != 2
      {
        assert i < |b[l]| ==> a[l][i] == b[l][i];
      }
    }
  }

  lemma LengthenedStuck(now: WatchLists, before: WatchLists, vals: map<int, bool>, lit: Lit)
    requires Lengthened(now, before, vals) && lit in now && Val(lit, vals) > 0
    ensures BinaryFails(now[lit], vals) <==> BinaryFails(before[lit], vals)
  {
    assert LongMore(now[lit], before[lit]);
    if i :| 0 <= i < |before[lit]| && before[lit][i].size == 2 && Val(before[lit][i].blit, vals) <= 0 {
      assert now[lit][i] == before[lit][i];
    }
    if i :| 0 <= i < |now[lit]| && now[lit][i].size == 2 && Val(now[lit][i].blit, vals) <= 0 {
      assert now[lit][i] == before[lit][i];
    }
  }
}

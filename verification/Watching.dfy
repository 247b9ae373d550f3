/** Two watched literals: every clause is listed under its first two literals,
    and lists are filtered in place while they are scanned. */
module Watching {
  import opened Logic
  import opened Clauses

  datatype Watch = Watch(clause: nat, blit: Lit, size: nat)

  type WatchLists = map<Lit, seq<Watch>>

  ghost predicate Has(ws: seq<Watch>, r: nat) {
    exists i :: 0 <= i < |ws| && ws[i].clause == r
  }

  /** `w` is a watch of `l`: `l` is one of the first two literals of the clause,
      and the blocking literal is in the clause, the other one in a binary clause. */
  ghost predicate WatchOf(w: Watch, l: Lit, literals: map<nat, Clause>) {
    && w.clause in literals
    && var c := literals[w.clause];
    && 2 <= |c| == w.size && (l == c[0] || l == c[1]) && w.blit in c
    && (|c| == 2 ==> w.blit == if c[0] == l then c[1] else c[0])
  }

  ghost predicate ListOf(l: Lit, ws: seq<Watch>, literals: map<nat, Clause>) {
    && (forall i :: 0 <= i < |ws| ==> WatchOf(ws[i], l, literals))
    && (forall i, j :: 0 <= i < j < |ws| ==> ws[i].clause != ws[j].clause)
  }

  ghost predicate AllLists(watches: WatchLists, literals: map<nat, Clause>) {
    forall l :: l in watches ==> ListOf(l, watches[l], literals)
  }

  ghost predicate WatchedClause(r: nat, c: Clause, watches: WatchLists) {
    && NoDuplicates(c)
    && (forall l :: l in c ==> l in watches)
    && (|c| >= 2 ==> c[0] in watches && c[1] in watches && Has(watches[c[0]], r) && Has(watches[c[1]], r))
  }

  /** All clauses that are not garbage are listed under their first two literals. */
  ghost predicate Watched(literals: map<nat, Clause>, garbage: set<nat>, watches: WatchLists) {
    && AllLists(watches, literals)
    && (forall r :: r in literals && r !in garbage ==> WatchedClause(r, literals[r], watches))
  }

  lemma HasSplit(a: seq<Watch>, b: seq<Watch>, r: nat)
    ensures Has(a + b, r) <==> Has(a, r) || Has(b, r)
  {
    if Has(a, r) {
      var i :| 0 <= i < |a| && a[i].clause == r;
      assert (a + b)[i].clause == r;
    }
    if Has(b, r) {
      var i :| 0 <= i < |b| && b[i].clause == r;
      assert (a + b)[|a| + i].clause == r;
    }
  }

  lemma HasOne(a: seq<Watch>, w: Watch, b: seq<Watch>, r: nat)
    ensures Has(a + [w] + b, r) <==> Has(a, r) || Has(b, r) || w.clause == r
  {
    HasSplit(a + [w], b, r);
    HasSplit(a, [w], r);
    assert w.clause == r ==> [w][0].clause == r;
  }

  /** One list changes without losing a watch of a live clause. */
  lemma Relisted(literals: map<nat, Clause>, garbage: set<nat>, watches: WatchLists, l: Lit, ws: seq<Watch>)
    requires Watched(literals, garbage, watches) && l in watches && ListOf(l, ws, literals)
    requires forall r :: Has(watches[l], r) && r !in garbage ==> Has(ws, r)
    ensures Watched(literals, garbage, watches[l := ws])
  {
    var now := watches[l := ws];
    forall r | r in literals && r !in garbage
      ensures WatchedClause(r, literals[r], now)
    {
      assert WatchedClause(r, literals[r], watches);
    }
  }

  lemma DropGarbage(literals: map<nat, Clause>, garbage: set<nat>, watches: WatchLists, l: Lit, a: seq<Watch>, w: Watch,
        b: seq<Watch>)
    requires Watched(literals, garbage, watches[l := a + [w] + b]) && w.clause in garbage
    ensures Watched(literals, garbage, watches[l := a + b])
  {
    var before := watches[l := a + [w] + b];
    forall r
      ensures Has(before[l], r) && r !in garbage ==> Has(a + b, r)
    {
      HasOne(a, w, b, r);
      HasSplit(a, b, r);
    }
    assert ListOf(l, a + b, literals) by {
      assert ListOf(l, before[l], literals);
      forall i | 0 <= i < |a + b|
        ensures (a + b)[i] == before[l][if i < |a| then i else i + 1]
      {
      }
    }
    Relisted(literals, garbage, before, l, a + b);
    assert before[l := a + b] == watches[l := a + b];
  }

  /** A new blocking literal for a clause of more than two literals. */
  lemma ChangeBlit(literals: map<nat, Clause>, garbage: set<nat>, watches: WatchLists, l: Lit, a: seq<Watch>, w: Watch,
        b: seq<Watch>, blit: Lit)
    requires Watched(literals, garbage, watches[l := a + [w] + b])
    requires w.clause in literals && |literals[w.clause]| > 2 && blit in literals[w.clause]
    ensures Watched(literals, garbage, watches[l := a + [w.(blit := blit)] + b])
  {
    var before := watches[l := a + [w] + b];
    var ws := a + [w.(blit := blit)] + b;
    forall r
      ensures Has(before[l], r) ==> Has(ws, r)
    {
      HasOne(a, w, b, r);
      HasOne(a, w.(blit := blit), b, r);
    }
    assert ListOf(l, ws, literals) by {
      assert ListOf(l, before[l], literals);
      assert WatchOf(before[l][|a|], l, literals);
      forall i | 0 <= i < |ws|
        ensures ws[i].clause == before[l][i].clause && (i != |a| ==> ws[i] == before[l][i])
      {
      }
    }
    Relisted(literals, garbage, before, l, ws);
    assert before[l := ws] == watches[l := ws];
  }

  /** The first two literals of a clause, `l` second. */
  function SecondWatch(c: Clause, l: Lit): (d: Clause)
    requires |c| >= 2 && (l == c[0] || l == c[1])
    ensures |d| == |c| && d[1] == l && multiset(d) == multiset(c)
    ensures {d[0], d[1]} == {c[0], c[1]} && forall k :: 2 <= k < |c| ==> d[k] == c[k]
  {
    var other := if c[0] == l then c[1] else c[0];
    var d := c[0 := other][1 := l];
    assert c[0 := c[1]][1 := c[0]] == d || c == d;
    d
  }

  /** Two literals of a clause changing places. */
  function Exchange(c: Clause, i: nat, k: nat): (d: Clause)
    requires i < |c| && k < |c|
    ensures |d| == |c| && d[i] == c[k] && d[k] == c[i]
    ensures forall j :: 0 <= j < |c| && j != i && j != k ==> d[j] == c[j]
    ensures multiset(d) == multiset(c)
  {
    c[i := c[k]][k := c[i]]
  }

  lemma SameLiterals(c: Clause, d: Clause)
    requires multiset(c) == multiset(d)
    ensures |c| == |d| && forall l :: l in c <==> l in d
    ensures NoDuplicates(c) ==> NoDuplicates(d)
  {
    assert |multiset(c)| == |c| && |multiset(d)| == |d|;
    forall l
      ensures l in c <==> l in d
    {
      assert l in c <==> l in multiset(c);
      assert l in d <==> l in multiset(d);
    }
    if NoDuplicates(c) {
      forall i, j | 0 <= i < j < |d|
        ensures d[i] != d[j]
      {
        if d[i] == d[j] {
          Twice(d, i, j);
          Once(c, d[i]);
        }
      }
    }
  }

  lemma Twice(d: Clause, i: nat, j: nat)
    requires i < j < |d| && d[i] == d[j]
    ensures multiset(d)[d[i]] >= 2
  {
    assert d == d[..i] + [d[i]] + d[i+1..j] + [d[j]] + d[j+1..];
  }

  lemma Once(c: Clause, l: Lit)
    requires NoDuplicates(c)
    ensures multiset(c)[l] <= 1
  {
    if l in c {
      var i :| 0 <= i < |c| && c[i] == l;
      assert c == c[..i] + [c[i]] + c[i+1..];
      assert l !in c[..i] && l !in c[i+1..];
    }
  }

  lemma SwapWatches(literals: map<nat, Clause>, garbage: set<nat>, watches: WatchLists, r: nat, l: Lit)
    requires Watched(literals, garbage, watches) && r in literals && |literals[r]| > 2
    requires l == literals[r][0] || l == literals[r][1]
    ensures Watched(literals[r := SecondWatch(literals[r], l)], garbage, watches)
  {
    var c := literals[r];
    var d := SecondWatch(c, l);
    var now := literals[r := d];
    SameLiterals(c, d);
    forall k | k in watches
      ensures ListOf(k, watches[k], now)
    {
      assert ListOf(k, watches[k], literals);
      forall i | 0 <= i < |watches[k]|
        ensures WatchOf(watches[k][i], k, now)
      {
        assert WatchOf(watches[k][i], k, literals);
      }
    }
    forall q | q in now && q !in garbage
      ensures WatchedClause(q, now[q], watches)
    {
      assert WatchedClause(q, literals[q], watches);
    }
  }

  /** `after` is `watches` once the watch `w` of `l` has moved to the literal at
      position `k` of its clause. */
  function Moved(c: Clause, watches: WatchLists, l: Lit, a: seq<Watch>, w: Watch, b: seq<Watch>, k: nat): WatchLists
    requires k < |c| && c[k] in watches
  {
    watches[c[k] := watches[c[k]] + [Watch(w.clause, l, |c|)]][l := a + b]
  }

  /** The watch of `l` in clause `r` moves to the literal at position `k`. */
  lemma MoveWatch(literals: map<nat, Clause>, garbage: set<nat>, watches: WatchLists, l: Lit, a: seq<Watch>, w: Watch,
        b: seq<Watch>, k: nat)
    requires Watched(literals, garbage, watches[l := a + [w] + b])
    requires w.clause in literals && 2 <= k < |literals[w.clause]| && literals[w.clause][1] == l
    requires w.clause !in garbage
    ensures var c := literals[w.clause];
            && c[k] in watches && c[k] != l
            && Watched(literals[w.clause := Exchange(c, 1, k)], garbage, Moved(c, watches, l, a, w, b, k))
  {
    hide ListOf, Has, WatchOf, Exchange, Moved;
    var r, c := w.clause, literals[w.clause];
    var before := watches[l := a + [w] + b];
    assert WatchedClause(r, c, before);
    assert c[k] != c[1] && c[k] in before;
    MovedLists(literals, watches, l, a, w, b, k);
    forall q | q in literals && q !in garbage
      ensures WatchedClause(q, literals[r := Exchange(c, 1, k)][q], Moved(c, watches, l, a, w, b, k))
    {
      assert WatchedClause(q, literals[q], before);
      MovedClause(literals, watches, l, a, w, b, k, q);
    }
  }

  lemma MovedLists(literals: map<nat, Clause>, watches: WatchLists, l: Lit, a: seq<Watch>, w: Watch, b: seq<Watch>,
        k: nat)
    requires w.clause in literals && 2 <= k < |literals[w.clause]| && literals[w.clause][1] == l
    requires AllLists(watches[l := a + [w] + b], literals)
    requires NoDuplicates(literals[w.clause]) && literals[w.clause][k] != l && literals[w.clause][k] in watches
    ensures var c := literals[w.clause];
            AllLists(Moved(c, watches, l, a, w, b, k), literals[w.clause := Exchange(c, 1, k)])
  {
    var r, c := w.clause, literals[w.clause];
    var before := watches[l := a + [w] + b];
    var n, d := c[k], Exchange(c, 1, k);
    var added, now := watches[n] + [Watch(r, l, |c|)], literals[r := d];
    SameLiterals(c, d);
    assert ListOf(l, before[l], literals);
    assert (a + [w] + b)[|a|] == w;
    NotListed(literals, before, r, n);
    OthersKept(literals, before, r, d, k);
    var rest := a + b;
    assert ListOf(l, rest, now) by {
      forall i | 0 <= i < |rest|
        ensures rest[i] == before[l][if i < |a| then i else i + 1] && rest[i].clause != r
      {
      }
    }
    assert ListOf(n, added, now) by {
      assert ListOf(n, before[n], now);
      assert WatchOf(Watch(r, l, |c|), n, now);
    }
    var after := Moved(c, watches, l, a, w, b, k);
    forall m | m in after
      ensures ListOf(m, after[m], now)
    {
      assert m != l ==> ListOf(m, before[m], now);
    }
  }

  lemma MovedClause(literals: map<nat, Clause>, watches: WatchLists, l: Lit, a: seq<Watch>, w: Watch, b: seq<Watch>,
        k: nat, q: nat)
    requires w.clause in literals && 2 <= k < |literals[w.clause]| && literals[w.clause][1] == l
    requires literals[w.clause][k] != l && literals[w.clause][k] in watches
    requires q in literals && WatchedClause(q, literals[q], watches[l := a + [w] + b])
    ensures var c := literals[w.clause];
            WatchedClause(q, literals[w.clause := Exchange(c, 1, k)][q], Moved(c, watches, l, a, w, b, k))
  {
    hide Has;
    var r, c := w.clause, literals[w.clause];
    var n := c[k];
    SameLiterals(c, Exchange(c, 1, k));
    HasOne(a, w, b, q);
    HasSplit(a, b, q);
    HasOne(watches[n], Watch(r, l, |c|), [], q);
    assert watches[n] + [Watch(r, l, |c|)] + [] == watches[n] + [Watch(r, l, |c|)];
    assert !Has([], q) by { NoneListed(q); }
  }

  lemma NoneListed(r: nat)
    ensures !Has([], r)
  {
  }

  lemma NotListed(literals: map<nat, Clause>, watches: WatchLists, r: nat, l: Lit)
    requires l in watches && ListOf(l, watches[l], literals)
    requires r in literals && |literals[r]| >= 2 && l != literals[r][0] && l != literals[r][1]
    ensures !Has(watches[l], r)
  {
    forall i | 0 <= i < |watches[l]|
      ensures watches[l][i].clause != r
    {
      assert WatchOf(watches[l][i], l, literals);
    }
  }

  /** Other lists do not notice that the second literal of `r` changed. */
  lemma OthersKept(literals: map<nat, Clause>, watches: WatchLists, r: nat, d: Clause, k: nat)
    requires r in literals && 2 <= k < |literals[r]| && d == Exchange(literals[r], 1, k)
    requires AllLists(watches, literals)
    ensures forall l :: l in watches && l != literals[r][1] ==> ListOf(l, watches[l], literals[r := d])
  {
    SameLiterals(literals[r], d);
    forall l | l in watches && l != literals[r][1]
      ensures ListOf(l, watches[l], literals[r := d])
    {
      assert ListOf(l, watches[l], literals);
      forall i | 0 <= i < |watches[l]|
        ensures WatchOf(watches[l][i], l, literals[r := d])
      {
        assert WatchOf(watches[l][i], l, literals);
      }
    }
  }

  lemma ListsMoved(c: Clause, watches: WatchLists, lit: Lit, a: seq<Watch>, w: Watch, b: seq<Watch>, k: nat)
    requires k < |c| && c[k] in watches && c[k] != lit && lit in watches
    ensures var now := watches[c[k] := watches[c[k]] + [Watch(w.clause, lit, |c|)]];
            && now[lit := a + b] == Moved(c, watches, lit, a, w, b, k)
            && now.Keys == watches.Keys
            && now[lit] == watches[lit]
  {
  }

  lemma DifferentWatches(literals: map<nat, Clause>, garbage: set<nat>, watches: WatchLists, r: nat)
    requires Watched(literals, garbage, watches) && r in literals && r !in garbage && |literals[r]| > 2
    ensures literals[r][0] != literals[r][1]
  {
    assert WatchedClause(r, literals[r], watches);
  }

  /** A new clause, watched by its first two literals. */
  function WithClause(watches: WatchLists, r: nat, c: Clause): (ws: WatchLists)
    requires |c| >= 2 && c[0] in watches && c[1] in watches
  {
    var first := watches[c[0] := watches[c[0]] + [Watch(r, c[1], |c|)]];
    first[c[1] := first[c[1]] + [Watch(r, c[0], |c|)]]
  }

  lemma NewWatched(literals: map<nat, Clause>, garbage: set<nat>, watches: WatchLists, r: nat, c: Clause)
    requires Watched(literals, garbage, watches) && r !in literals && |c| >= 2 && NoDuplicates(c)
    requires forall l :: l in c ==> l in watches
    ensures Watched(literals[r := c], garbage, WithClause(watches, r, c))
    ensures WithClause(watches, r, c).Keys == watches.Keys
  {
    hide Has, WatchOf;
    var now, ws := literals[r := c], WithClause(watches, r, c);
    assert c[0] != c[1] && c[0] in c && c[1] in c;
    forall l | l in ws
      ensures ListOf(l, ws[l], now)
    {
      NewList(literals, watches[l], l, r, c);
    }
    forall q | q in now && q !in garbage
      ensures WatchedClause(q, now[q], ws)
    {
      assert q != r ==> WatchedClause(q, literals[q], watches);
      HasOne(watches[c[0]], Watch(r, c[1], |c|), [], q);
      HasOne(watches[c[1]], Watch(r, c[0], |c|), [], q);
      assert ws[c[0]] == watches[c[0]] + [Watch(r, c[1], |c|)] + [];
      assert ws[c[1]] == watches[c[1]] + [Watch(r, c[0], |c|)] + [];
    }
  }

  lemma NewList(literals: map<nat, Clause>, ws: seq<Watch>, l: Lit, r: nat, c: Clause)
    requires ListOf(l, ws, literals) && r !in literals && |c| >= 2 && c[0] != c[1]
    ensures ListOf(l, ws, literals[r := c])
    ensures l == c[0] ==> ListOf(l, ws + [Watch(r, c[1], |c|)], literals[r := c])
    ensures l == c[1] ==> ListOf(l, ws + [Watch(r, c[0], |c|)], literals[r := c])
  {
    forall i | 0 <= i < |ws|
      ensures WatchOf(ws[i], l, literals[r := c]) && ws[i].clause != r
    {
      assert WatchOf(ws[i], l, literals);
    }
  }

  /** Lists for new variables. */
  lemma MoreLists(literals: map<nat, Clause>, garbage: set<nat>, watches: WatchLists, l: Lit)
    requires Watched(literals, garbage, watches) && l !in watches
    ensures Watched(literals, garbage, watches[l := []])
  {
    hide Has;
    var now := watches[l := []];
    forall r | r in literals && r !in garbage
      ensures WatchedClause(r, literals[r], now)
    {
      assert WatchedClause(r, literals[r], watches);
    }
  }

  /** Garbage clauses that no list mentions can be freed. */
  lemma FreeGarbage(literals: map<nat, Clause>, garbage: set<nat>, watches: WatchLists)
    requires Watched(literals, garbage, watches)
    requires forall l, r :: l in watches && r in garbage ==> !Has(watches[l], r)
    ensures Watched(literals - garbage, {}, watches)
  {
    var now := literals - garbage;
    forall l | l in watches
      ensures ListOf(l, watches[l], now)
    {
      assert ListOf(l, watches[l], literals);
      forall i | 0 <= i < |watches[l]|
        ensures WatchOf(watches[l][i], l, now)
      {
        assert Has(watches[l], watches[l][i].clause);
        assert WatchOf(watches[l][i], l, literals);
      }
    }
  }

  /** A list without the watches of garbage clauses. */
  lemma Filtered(ws: seq<Watch>, garbage: set<nat>, l: Lit, literals: map<nat, Clause>, kept: seq<Watch>, i: nat)
    requires i < |ws| && ListOf(l, ws, literals) && ListOf(l, kept, literals)
    requires forall r :: Has(kept, r) <==> Has(ws[..i], r) && r !in garbage
    ensures ws[i].clause in garbage ==> forall r :: Has(kept, r) <==> Has(ws[..i + 1], r) && r !in garbage
    ensures ws[i].clause !in garbage ==>
      && ListOf(l, kept + [ws[i]], literals)
      && forall r :: Has(kept + [ws[i]], r) <==> Has(ws[..i + 1], r) && r !in garbage
  {
    var w := ws[i];
    var next := if w.clause in garbage then kept else kept + [w];
    assert ws[..i + 1] == ws[..i] + [w];
    NotBefore(ws, i);
    forall r
      ensures Has(next, r) <==> Has(ws[..i + 1], r) && r !in garbage
    {
      HasSplit(ws[..i], [w], r);
      HasSplit(kept, [w], r);
      assert [w][0] == w;
    }
    assert WatchOf(w, l, literals);
    forall j | 0 <= j < |kept|
      ensures kept[j].clause != w.clause || w.clause in garbage
    {
      assert Has(kept, kept[j].clause);
    }
  }

  lemma NotBefore(ws: seq<Watch>, i: nat)
    requires i < |ws| && forall j, k :: 0 <= j < k < |ws| ==> ws[j].clause != ws[k].clause
    ensures !Has(ws[..i], ws[i].clause)
  {
  }
}

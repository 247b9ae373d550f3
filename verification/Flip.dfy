/** Flipping a literal of a satisfying assignment, and `flippable`, which only
    asks (flip.cpp); with the repropagation that prepares the watches. */
module Flip {
  import opened Logic
  import opened Clauses
  import opened Watching
  import opened FlipWatches

  /** Saved positions are where a replacement watch may be. */
  ghost predicate Positioned(pos: map<nat, nat>, literals: map<nat, Clause>, garbage: set<nat>) {
    forall r :: r in literals && r !in garbage ==> r in pos && 2 <= pos[r] <= |literals[r]|
  }

  /** The trail holds the true literal of every assigned variable. */
  ghost predicate Trailed(vals: map<int, bool>, trail: seq<Lit>, trailPos: map<int, nat>) {
    && (forall v :: v in vals ==> v in trailPos && trailPos[v] < |trail| && Var(trail[trailPos[v]]) == v)
    && (forall i :: 0 <= i < |trail| ==>
          Val(trail[i], vals) > 0 && Var(trail[i]) in trailPos && trailPos[Var(trail[i])] == i)
  }

  /** Every assigned literal has a watch list. */
  ghost predicate Listed(vals: map<int, bool>, watches: WatchLists) {
    forall l: Lit :: Var(l) in vals ==> l in watches
  }

  ghost predicate EngineOf(literals: map<nat, Clause>, garbage: set<nat>, pos: map<nat, nat>, vals: map<int, bool>,
        lists: WatchLists) {
    && Watched(literals, garbage, lists) && ProperBlits(lists) && Listed(vals, lists)
    && Total(literals, garbage, vals) && AllSatisfied(literals, garbage, vals) && Positioned(pos, literals, garbage)
  }

  lemma EngineRewatch(literals: map<nat, Clause>, garbage: set<nat>, pos: map<nat, nat>, vals: map<int, bool>,
                      watches: WatchLists, lit: Lit, a: seq<Watch>, w: Watch, b: seq<Watch>, k: nat)
    requires lit in watches && EngineOf(literals, garbage, pos, vals, watches[lit := a + [w] + b])
    requires w.clause in literals && w.clause !in garbage && 2 <= k < |literals[w.clause]|
    requires lit == literals[w.clause][0] || lit == literals[w.clause][1]
    ensures var r, c := w.clause, literals[w.clause];
      && c[k] in watches && c[k] != lit
      && var now := watches[c[k] := watches[c[k]] + [Watch(r, lit, |c|)]];
      && now.Keys == watches.Keys && now[lit] == watches[lit]
      && Reordered(literals[r := Replaced(c, lit, k)], literals)
      && EngineOf(literals[r := Replaced(c, lit, k)], garbage, pos[r := k], vals, now[lit := a + b])
  {
    hide Watched, ProperBlits, Total, AllSatisfied, Reordered, Positioned, Replaced;
    var r, c := w.clause, literals[w.clause];
    Rewatched(literals, garbage, watches, lit, a, w, b, k);
    var d := Replaced(c, lit, k);
    BlitsRewatched(watches, lit, a, w, b, c[k], |c|);
    TotalReordered(literals[r := d], literals, garbage, vals);
    SatisfiedReordered(literals[r := d], literals, garbage, vals);
    PositionedChange(pos, literals, garbage, r, d, k);
  }

  lemma PositionedChange(pos: map<nat, nat>, literals: map<nat, Clause>, garbage: set<nat>, r: nat, d: Clause, k: nat)
    requires Positioned(pos, literals, garbage) && 2 <= k <= |d|
    ensures Positioned(pos[r := k], literals[r := d], garbage)
  {
  }

  lemma BlitsRewatched(watches: WatchLists, lit: Lit, a: seq<Watch>, w: Watch, b: seq<Watch>, n: Lit, size: nat)
    requires lit in watches && n in watches && n != lit && ProperBlits(watches[lit := a + [w] + b])
    ensures ProperBlits(watches[n := watches[n] + [Watch(w.clause, lit, size)]][lit := a + b])
  {
    var more := Watch(w.clause, lit, size);
    var lists := watches[lit := a + [w] + b];
    var now := watches[n := watches[n] + [more]];
    BlitsMoved(lists, lit, n, more);
    assert lists[n := lists[n] + [more]] == now[lit := a + [w] + b];
    BlitsDrop(now, lit, a, w, b);
  }

  lemma BlitsDrop(watches: WatchLists, lit: Lit, a: seq<Watch>, w: Watch, b: seq<Watch>)
    requires ProperBlits(watches[lit := a + [w] + b])
    ensures ProperBlits(watches[lit := a + b])
  {
    var ws := watches[lit := a + [w] + b];
    forall i | 0 <= i < |a + b|
      ensures (a + b)[i].blit != lit
    {
      assert (a + b)[i] == ws[lit][if i < |a| then i else i + 1];
    }
    forall l: Lit, i | l in watches[lit := a + b] && l != lit && 0 <= i < |watches[l]|
      ensures watches[l][i].blit != l
    {
      assert ws[l] == watches[l];
    }
  }

  lemma EngineDrop(literals: map<nat, Clause>, garbage: set<nat>, pos: map<nat, nat>, vals: map<int, bool>,
                   watches: WatchLists, lit: Lit, a: seq<Watch>, w: Watch, b: seq<Watch>)
    requires lit in watches && EngineOf(literals, garbage, pos, vals, watches[lit := a + [w] + b])
    requires w.clause in garbage
    ensures EngineOf(literals, garbage, pos, vals, watches[lit := a + b])
  {
    hide Watched, ProperBlits, Total, AllSatisfied, Positioned;
    DropGarbage(literals, garbage, watches, lit, a, w, b);
    BlitsDrop(watches, lit, a, w, b);
  }

  /** With all literals from the third on false, a satisfied clause has a true
      watch. */
  lemma TrueAmongWatches(c: Clause, vals: map<int, bool>)
    requires HasTrue(c, vals) && |c| >= 2 && forall j :: 2 <= j < |c| ==> Val(c[j], vals) < 0
    ensures TrueWatch(c, vals)
  {
    var l :| l in c && Val(l, vals) > 0;
    var j :| 0 <= j < |c| && c[j] == l;
    assert j < 2;
  }

  lemma SatisfiedClause(literals: map<nat, Clause>, garbage: set<nat>, pos: map<nat, nat>, vals: map<int, bool>,
        lists: WatchLists, r: nat)
    requires EngineOf(literals, garbage, pos, vals, lists) && r in literals && r !in garbage
    ensures HasTrue(literals[r], vals) && |literals[r]| >= 2 && r in pos && 2 <= pos[r] <= |literals[r]|
    ensures forall j :: 0 <= j < |literals[r]| ==> Val(literals[r][j], vals) != 0
  {
    hide Watched, ProperBlits, HasTrue;
    var c := literals[r];
    forall j | 0 <= j < |c|
      ensures Val(c[j], vals) != 0
    {
      assert c[j] in c;
    }
  }

  lemma EngineWatch(literals: map<nat, Clause>, garbage: set<nat>, pos: map<nat, nat>, vals: map<int, bool>,
                    watches: WatchLists, lit: Lit, a: seq<Watch>, w: Watch, b: seq<Watch>)
    requires lit in watches && EngineOf(literals, garbage, pos, vals, watches[lit := a + [w] + b])
    ensures WatchOf(w, lit, literals) && w.blit != lit
    ensures w.clause !in garbage ==> NoDuplicates(literals[w.clause])
  {
    hide Watched, WatchOf, Total, AllSatisfied, Positioned;
    WatchFacts(literals, garbage, watches, lit, a, w, b);
    var lists := watches[lit := a + [w] + b];
    assert lists[lit][|a|] == w;
  }

  lemma LengthenedBut(now: WatchLists, before: WatchLists, lit: Lit, vals: map<int, bool>)
    requires lit in now && lit in before && Val(lit, vals) < 0
    requires Lengthened(now[lit := []], before[lit := []], vals)
    ensures Lengthened(now, before, vals)
  {
    var n, b := now[lit := []], before[lit := []];
    assert now.Keys == n.Keys && before.Keys == b.Keys;
    forall l | l in now && Val(l, vals) > 0
      ensures LongMore(now[l], before[l])
    {
      assert n[l] == now[l] && b[l] == before[l];
    }
  }

  lemma NextWatch(kept: seq<Watch>, ws: seq<Watch>, i: nat)
    requires i < |ws|
    ensures kept + ws[i..] == kept + [ws[i]] + ws[i+1..] && ws[i..] == [ws[i]] + ws[i+1..]
  {
  }

  lemma TrailedLists(literals: map<nat, Clause>, garbage: set<nat>, pos: map<nat, nat>, vals: map<int, bool>,
        watches: WatchLists,
                     trail: seq<Lit>, trailPos: map<int, nat>, i: nat)
    requires EngineOf(literals, garbage, pos, vals, watches) && Trailed(vals, trail, trailPos) && i < |trail|
    ensures Neg(trail[i]) in watches && Val(Neg(trail[i]), vals) < 0 && Watched(literals, garbage, watches)
  {
    hide Watched, ProperBlits, Total, AllSatisfied, Positioned;
    assert Val(trail[i], vals) > 0;
  }

  lemma OnlyOne(literals: map<nat, Clause>, garbage: set<nat>, r: nat, lit: Lit, vals: map<int, bool>)
    requires r in literals && r !in garbage && |literals[r]| >= 2
    requires var c := literals[r];
      (c[0] == lit && Val(c[1], vals) < 0) || (c[1] == lit && Val(c[0], vals) < 0)
    requires forall j :: 2 <= j < |literals[r]| ==> Val(literals[r][j], vals) < 0
    ensures SomeSole(literals, garbage, lit, vals)
  {
    assert lit in literals[r];
    assert Sole(literals[r], lit, vals);
  }

  lemma CheckedSupport(literals: map<nat, Clause>, garbage: set<nat>, vals: map<int, bool>, r: nat, d: Clause, k: nat)
    requires Supported(literals, garbage, vals) && |d| > 2 && Val(d[1], vals) > 0
    ensures Supported(literals[r := d], garbage, vals)
  {
    SupportedChange(literals, garbage, vals, r, d);
  }

  lemma NoneChecked(literals: map<nat, Clause>, garbage: set<nat>, vals: map<int, bool>, lit: Lit)
    ensures Checked(literals, garbage, vals, lit, [])
  {
  }

  /** The literal of `v` that is true. */
  function TrueLiteral(v: int, vals: map<int, bool>): (l: Lit)
    requires v in vals && v > 0
    ensures Var(l) == v && Val(l, vals) > 0
  {
    if vals[v] then v else 0 - v
  }

  lemma TrueLiteralListed(literals: map<nat, Clause>, garbage: set<nat>, pos: map<nat, nat>, vals: map<int, bool>,
        watches: WatchLists, v: int)
    requires EngineOf(literals, garbage, pos, vals, watches) && v in vals && v > 0
    ensures TrueLiteral(v, vals) in watches
  {
  }

  lemma TrailedAt(vals: map<int, bool>, trail: seq<Lit>, trailPos: map<int, nat>, v: int)
    requires Trailed(vals, trail, trailPos) && v in vals && v > 0
    ensures v in trailPos && trailPos[v] < |trail| && trail[trailPos[v]] == TrueLiteral(v, vals)
  {
    assert Val(trail[trailPos[v]], vals) > 0;
  }

  lemma EngineIsWatched(literals: map<nat, Clause>, garbage: set<nat>, pos: map<nat, nat>, vals: map<int, bool>,
        watches: WatchLists)
    requires EngineOf(literals, garbage, pos, vals, watches)
    ensures Watched(literals, garbage, watches) && Total(literals, garbage, vals)
  {
  }

  lemma EngineFlip(literals: map<nat, Clause>, garbage: set<nat>, pos: map<nat, nat>, vals: map<int, bool>,
        watches: WatchLists, lit: Lit)
    requires EngineOf(literals, garbage, pos, vals, watches) && Var(lit) in vals
    requires Supported(literals, garbage, SetFalse(lit, vals))
    ensures EngineOf(literals, garbage, pos, SetFalse(lit, vals), watches)
  {
    hide Watched, ProperBlits, Positioned, Supported, AllSatisfied;
    SupportedSatisfies(literals, garbage, SetFalse(lit, vals));
    assert SetFalse(lit, vals).Keys == vals.Keys;
  }

  lemma TrailedFlip(vals: map<int, bool>, trail: seq<Lit>, trailPos: map<int, nat>, lit: Lit)
    requires Trailed(vals, trail, trailPos) && Val(lit, vals) > 0
    ensures Trailed(SetFalse(lit, vals), trail[trailPos[Var(lit)] := Neg(lit)], trailPos)
  {
    var v := Var(lit);
    forall i | 0 <= i < |trail| && i != trailPos[v]
      ensures Var(trail[i]) != v
    {
      assert trailPos[Var(trail[i])] == i;
    }
  }

  /** The clause of the watch `w` of `lit` does not depend on `lit`. */
  ghost predicate Excused(literals: map<nat, Clause>, garbage: set<nat>, vals: map<int, bool>, lit: Lit, w: Watch) {
    if w.size == 2 then Val(w.blit, vals) > 0
    else w.clause in literals && (w.clause in garbage || !Sole(literals[w.clause], lit, vals))
  }

  lemma AllExcused(literals: map<nat, Clause>, garbage: set<nat>, pos: map<nat, nat>, watches: WatchLists,
        vals: map<int, bool>, lit: Lit)
    requires lit in watches && EngineOf(literals, garbage, pos, vals, watches) && Supported(literals, garbage, vals)
    requires forall j :: 0 <= j < |watches[lit]| ==> Excused(literals, garbage, vals, lit, watches[lit][j])
    ensures !Stuck(literals, garbage, watches[lit], lit, vals)
  {
    hide AllSatisfied, Positioned, Total, Listed;
    var ws := watches[lit];
    forall r | r in literals && r !in garbage
      ensures !Sole(literals[r], lit, vals)
    {
      var c := literals[r];
      assert TrueWatch(c, vals) && c[0] in c && c[1] in c && WatchedClause(r, c, watches);
      if c[0] == lit || c[1] == lit {
        assert Has(ws, r);
        var j :| 0 <= j < |ws| && ws[j].clause == r;
        assert Excused(literals, garbage, vals, lit, ws[j]) && ws[j].blit != lit;
        assert ListOf(lit, ws, literals) && WatchOf(ws[j], lit, literals);
      }
    }
    forall j | 0 <= j < |ws| && ws[j].size == 2
      ensures Val(ws[j].blit, vals) > 0
    {
      assert Excused(literals, garbage, vals, lit, ws[j]);
    }
  }

  lemma Refused(literals: map<nat, Clause>, garbage: set<nat>, vals: map<int, bool>, lit: Lit, ws: seq<Watch>, i: nat)
    requires i < |ws| && ws[i].clause in literals && !Excused(literals, garbage, vals, lit, ws[i])
    ensures Stuck(literals, garbage, ws, lit, vals)
  {
  }

  lemma EngineBlit(literals: map<nat, Clause>, garbage: set<nat>, pos: map<nat, nat>, vals: map<int, bool>,
                   watches: WatchLists, lit: Lit, i: nat, blit: Lit)
    requires lit in watches && EngineOf(literals, garbage, pos, vals, watches) && i < |watches[lit]|
    requires watches[lit][i].clause in literals && |literals[watches[lit][i].clause]| > 2
    requires blit in literals[watches[lit][i].clause] && blit != lit
    ensures EngineOf(literals, garbage, pos, vals, watches[lit := watches[lit][i := watches[lit][i].(blit := blit)]])
  {
    hide Watched, Total, AllSatisfied, Positioned;
    var ws := watches[lit];
    var w := ws[i];
    var a, b := ws[..i], ws[i+1..];
    assert ws == a + [w] + b && watches[lit := ws] == watches;
    assert ws[i := w.(blit := blit)] == a + [w.(blit := blit)] + b;
    ChangeBlit(literals, garbage, watches, lit, a, w, b, blit);
  }

  lemma EngineMove(literals: map<nat, Clause>, garbage: set<nat>, pos: map<nat, nat>, vals: map<int, bool>,
        watches: WatchLists, r: nat, k: nat)
    requires EngineOf(literals, garbage, pos, vals, watches) && r in literals && 2 <= k <= |literals[r]|
    ensures EngineOf(literals, garbage, pos[r := k], vals, watches)
  {
    hide Watched, Total, AllSatisfied, ProperBlits, Listed;
  }

  /** The watches from position `i` on are as they were. */
  ghost predicate SameFrom(now: seq<Watch>, before: seq<Watch>, i: nat) {
    |now| == |before| && forall j :: i <= j < |now| ==> now[j] == before[j]
  }

  class Flipper {
    var literals: map<nat, Clause>
    var garbage: set<nat>
    var pos: map<nat, nat>
    var watches: WatchLists
    var vals: map<int, bool>
    var trail: seq<Lit>
    var trailPos: map<int, nat>
    var propergated: nat
    var inactive: set<int>       // neither active nor unused

    ghost predicate Engine(lists: WatchLists)
      reads this`literals, this`garbage, this`pos, this`vals
    {
      EngineOf(literals, garbage, pos, vals, lists)
    }

    /** A total assignment satisfies the clauses, and every clause has a true
        watch unless its watches wait to be repropagated. */
    ghost predicate Valid()
      reads this
    {
      && Engine(watches) && Trailed(vals, trail, trailPos) && propergated <= |trail|
      && Behind(literals, garbage, vals, trail[propergated..], 1, [])
    }

    /** The position of a true literal other than the watches, searched from the
        saved position on and then before it; the length if there is none. */
    method FindTrue(c: Clause, middle: nat) returns (k: nat)
      requires 2 <= middle <= |c|
      ensures 2 <= k <= |c|
      ensures k < |c| ==> Val(c[k], vals) >= 0
      ensures k == |c| ==> forall j :: 2 <= j < |c| ==> Val(c[j], vals) < 0
    {
      k := middle;
      while k < |c| && Val(c[k], vals) < 0
        invariant middle <= k <= |c| && forall j :: middle <= j < k ==> Val(c[j], vals) < 0
      {
        k := k + 1;
      }
      if k == |c| {
        k := 2;
        while k < middle && Val(c[k], vals) < 0
          invariant 2 <= k <= middle && forall j :: 2 <= j < k ==> Val(c[j], vals) < 0
        {
          k := k + 1;
        }
        if k == middle {
          k := |c|;
        }
      }
    }

    /** The clause of `w` is watched by its literal at `k` instead of `lit`. */
    method Rewatch(lit: Lit, w: Watch, k: nat, ghost a: seq<Watch>, ghost b: seq<Watch>)
      requires lit in watches && Engine(watches[lit := a + [w] + b])
      requires w.clause in literals && w.clause !in garbage && 2 < |literals[w.clause]| && 2 <= k < |literals[w.clause]|
      requires lit == literals[w.clause][0] || lit == literals[w.clause][1]
      requires Val(literals[w.clause][k], vals) > 0
      modifies this`literals, this`pos, this`watches
      ensures watches.Keys == old(watches.Keys) && watches[lit] == old(watches[lit])
      ensures Engine(watches[lit := a + b]) && Reordered(literals, old(literals))
      ensures literals == old(literals)[w.clause := Replaced(old(literals)[w.clause], lit, k)]
      ensures TrueWatch(literals[w.clause], vals)
      ensures Lengthened(watches[lit := []], old(watches)[lit := []], vals)
    {
      hide EngineOf, Reordered, Replaced;
      var r, c := w.clause, literals[w.clause];
      EngineRewatch(literals, garbage, pos, vals, watches, lit, a, w, b, k);
      literals := literals[r := Replaced(c, lit, k)];
      pos := pos[r := k];
      watches := watches[c[k] := watches[c[k]] + [Watch(r, lit, |c|)]];
    }

    /** One watch of the false literal `lit` while repropagating. */
    method Revisit(lit: Lit, w: Watch, ghost a: seq<Watch>, ghost b: seq<Watch>, ghost todo: seq<Lit>)
      returns (keep: seq<Watch>)
      requires lit in watches && Val(lit, vals) < 0 && Engine(watches[lit := a + [w] + b])
      requires Behind(literals, garbage, vals, todo, lit, [w] + b)
      modifies this`literals, this`pos, this`watches
      ensures watches.Keys == old(watches.Keys) && watches[lit] == old(watches[lit])
      ensures |keep| <= 1 && Engine(watches[lit := a + keep + b]) && Reordered(literals, old(literals))
      ensures Behind(literals, garbage, vals, todo, lit, b)
      ensures Lengthened(watches[lit := []], old(watches)[lit := []], vals)
    {
      hide EngineOf, Reordered, Behind, Replaced, Lengthened, HasTrue;
      keep := [w];
      var r := w.clause;
      EngineWatch(literals, garbage, pos, vals, watches, lit, a, w, b);
      ReorderedSame(literals);
      LengthenedSame(watches[lit := []], vals);
      if r in garbage {
        BehindVisit(literals, garbage, vals, todo, lit, w, b);
        if w.size != 2 {
          EngineDrop(literals, garbage, pos, vals, watches, lit, a, w, b);
          assert a + [] + b == a + b;
          keep := [];
        }
        return;
      }
      SatisfiedClause(literals, garbage, pos, vals, watches[lit := a + [w] + b], r);
      if w.size == 2 {
        TrueAmongWatches(literals[r], vals);
        BehindVisit(literals, garbage, vals, todo, lit, w, b);
        return;
      }
      var other := if literals[r][0] == lit then literals[r][1] else literals[r][0];
      if Val(other, vals) > 0 {
        BehindVisit(literals, garbage, vals, todo, lit, w, b);
        return;
      }
      var k := FindTrue(literals[r], pos[r]);
      if k == |literals[r]| {
        TrueAmongWatches(literals[r], vals);
        assert false;
      } else {
        BehindChange(literals, garbage, vals, todo, lit, [w] + b, r, Replaced(literals[r], lit, k));
        Rewatch(lit, w, k, a, b);
        BehindVisit(literals, garbage, vals, todo, lit, w, b);
        assert a + [] + b == a + b;
        keep := [];
      }
    }

    /** Repropagate one false literal, filtering its list in place. */
    method RepropagateLiteral(lit: Lit, ghost todo: seq<Lit>)
      requires lit in watches && Val(lit, vals) < 0 && Engine(watches)
      requires Behind(literals, garbage, vals, todo, lit, watches[lit])
      modifies this`literals, this`pos, this`watches
      ensures Engine(watches) && Reordered(literals, old(literals))
      ensures Behind(literals, garbage, vals, todo, lit, [])
      ensures Lengthened(watches, old(watches), vals)
    {
      hide EngineOf, Reordered, Behind, Lengthened, Val;
      var ws := watches[lit];
      var kept: seq<Watch> := [];
      ReorderedSame(literals);
      LengthenedSame(watches[lit := []], vals);
      assert [] + ws[0..] == ws && watches[lit := ws] == watches && ws[0..] == ws;
      for i := 0 to |ws|
        invariant watches.Keys == old(watches.Keys) && watches[lit] == ws && Val(lit, vals) < 0
        invariant Engine(watches[lit := kept + ws[i..]]) && Reordered(literals, old(literals))
        invariant Behind(literals, garbage, vals, todo, lit, ws[i..])
        invariant Lengthened(watches[lit := []], old(watches)[lit := []], vals)
      {
        NextWatch(kept, ws, i);
        ghost var before, lists := literals, watches[lit := []];
        var keep := Revisit(lit, ws[i], kept, ws[i+1..], todo);
        ReorderedTrans(literals, before, old(literals));
        LengthenedTrans(watches[lit := []], lists, old(watches)[lit := []], vals);
        kept := kept + keep;
      }
      assert kept + ws[|ws|..] == kept && ws[|ws|..] == [];
      assert watches[lit := kept][lit := []] == watches[lit := []];
      watches := watches[lit := kept];
      LengthenedBut(watches, old(watches), lit, vals);
    }

    /** Repropagation without blocking literals gives every clause a true watch. */
    method Repropagate()
      requires Valid()
      modifies this`literals, this`pos, this`watches, this`propergated
      ensures Valid() && propergated == |trail| && Supported(literals, garbage, vals)
      ensures Reordered(literals, old(literals)) && Lengthened(watches, old(watches), vals)
    {
      hide EngineOf, Reordered, Behind, Lengthened, Val;
      ReorderedSame(literals);
      LengthenedSame(watches, vals);
      while propergated < |trail|
        invariant Valid()
        invariant Reordered(literals, old(literals)) && Lengthened(watches, old(watches), vals)
      {
        var p := trail[propergated];
        var lit := Neg(p);
        assert trail[propergated..] == [p] + trail[propergated+1..];
        TrailedLists(literals, garbage, pos, vals, watches, trail, trailPos, propergated);
        propergated := propergated + 1;
        ghost var before, lists := literals, watches;
        BehindStart(literals, garbage, vals, watches, p, trail[propergated..], 1);
        RepropagateLiteral(lit, trail[propergated..]);
        BehindEnd(literals, garbage, vals, trail[propergated..], lit, 1);
        ReorderedTrans(literals, before, old(literals));
        LengthenedTrans(watches, lists, old(watches), vals);
      }
      assert trail[propergated..] == [];
      NothingBehind(literals, garbage, vals, 1);
    }

    /** The binary watches first: each needs its other literal to be true. */
    method CheckBinaries(ws: seq<Watch>) returns (res: bool)
      ensures res <==> !BinaryFails(ws, vals)
    {
      for i := 0 to |ws|
        invariant forall j :: 0 <= j < i && ws[j].size == 2 ==> Val(ws[j].blit, vals) > 0
      {
        if ws[i].size != 2 || Val(ws[i].blit, vals) > 0 {
          continue;
        }
        return false;
      }
      return true;
    }

    /** One watch of the true literal `lit`: can its clause do without it? */
    method CheckWatch(lit: Lit, w: Watch, ghost a: seq<Watch>, ghost b: seq<Watch>)
      returns (keep: seq<Watch>, res: bool)
      requires lit in watches && Val(lit, vals) > 0 && Engine(watches[lit := a + [w] + b])
      requires Supported(literals, garbage, vals) && Checked(literals, garbage, vals, lit, a)
      requires w.size == 2 ==> Val(w.blit, vals) > 0
      modifies this`literals, this`pos, this`watches
      ensures watches.Keys == old(watches.Keys) && watches[lit] == old(watches[lit])
      ensures |keep| <= 1 && Engine(watches[lit := a + keep + b]) && Reordered(literals, old(literals))
      ensures Supported(literals, garbage, vals)
      ensures res ==> Checked(literals, garbage, vals, lit, a + keep)
      ensures !res ==> keep == [w] && SomeSole(literals, garbage, lit, vals)
    {
      hide EngineOf, Reordered, Replaced, Lengthened, HasTrue, Checked, Supported, TrueWatch;
      keep, res := [w], true;
      var r := w.clause;
      EngineWatch(literals, garbage, pos, vals, watches, lit, a, w, b);
      ReorderedSame(literals);
      if w.size == 2 {
        CheckedMore(literals, garbage, vals, lit, a, w);
        return;
      }
      if r in garbage {
        EngineDrop(literals, garbage, pos, vals, watches, lit, a, w, b);
        assert a + [] + b == a + b && a + [] == a;
        keep := [];
        return;
      }
      SatisfiedClause(literals, garbage, pos, vals, watches[lit := a + [w] + b], r);
      var other := if literals[r][0] == lit then literals[r][1] else literals[r][0];
      if Val(other, vals) > 0 {
        CheckedMore(literals, garbage, vals, lit, a, w);
        return;
      }
      var k := FindTrue(literals[r], pos[r]);
      if k == |literals[r]| {
        OnlyOne(literals, garbage, r, lit, vals);
        res := false;
      } else {
        EngineIsWatched(literals, garbage, pos, vals, watches[lit := a + [w] + b]);
        CheckedChange(literals, garbage, vals, watches, lit, a, w, b, Replaced(literals[r], lit, k));
        CheckedSupport(literals, garbage, vals, r, Replaced(literals[r], lit, k), k);
        Rewatch(lit, w, k, a, b);
        assert a + [] + b == a + b && a + [] == a;
        keep := [];
      }
    }

    /** All watches of `lit`, filtering its list in place. */
    method CheckWatches(lit: Lit) returns (res: bool)
      requires lit in watches && Val(lit, vals) > 0 && Engine(watches) && Supported(literals, garbage, vals)
      requires !BinaryFails(watches[lit], vals)
      modifies this`literals, this`pos, this`watches
      ensures Engine(watches) && Reordered(literals, old(literals)) && lit in watches
      ensures Supported(literals, garbage, vals)
      ensures res ==> Checked(literals, garbage, vals, lit, watches[lit])
      ensures !res ==> SomeSole(literals, garbage, lit, vals)
    {
      hide EngineOf, Reordered, Val, Checked, Supported, SomeSole;
      res := true;
      var ws := watches[lit];
      var kept: seq<Watch> := [];
      var i := 0;
      ReorderedSame(literals);
      NoneChecked(literals, garbage, vals, lit);
      assert [] + ws[0..] == ws && watches[lit := ws] == watches && ws[0..] == ws;
      while res && i < |ws|
        invariant 0 <= i <= |ws| && watches.Keys == old(watches.Keys) && watches[lit] == ws && Val(lit, vals) > 0
        invariant Engine(watches[lit := kept + ws[i..]]) && Reordered(literals, old(literals))
        invariant Supported(literals, garbage, vals)
        invariant res ==> Checked(literals, garbage, vals, lit, kept)
        invariant !res ==> SomeSole(literals, garbage, lit, vals)
      {
        NextWatch(kept, ws, i);
        ghost var before := literals;
        var keep: seq<Watch>;
        keep, res := CheckWatch(lit, ws[i], kept, ws[i+1..]);
        ReorderedTrans(literals, before, old(literals));
        kept := kept + keep;
        i := i + 1;
      }
      assert res ==> kept + ws[i..] == kept;
      watches := watches[lit := kept + ws[i..]];
    }

    /** `flip`: change the value of the variable of `l` unless some clause
        depends on it.  Clauses and watches stay in order either way. */
    method FlipLiteral(l: Lit) returns (res: bool)
      requires Valid() && Var(l) in vals
      modifies this
      ensures Valid() && Reordered(literals, old(literals)) && garbage == old(garbage) && inactive == old(inactive)
      ensures var lit := TrueLiteral(Var(l), old(vals));
        && lit in old(watches)
        && (res <==> Var(l) !in inactive && !Stuck(old(literals), garbage, old(watches[lit]), lit, old(vals)))
        && vals == (if res then SetFalse(lit, old(vals)) else old(vals))
        && trailPos == old(trailPos)
        && trail == if res then old(trail)[trailPos[Var(l)] := Neg(lit)] else old(trail)
      ensures if Var(l) in inactive then propergated == old(propergated)
              else propergated == |trail| && Supported(literals, garbage, vals)
    {
      hide EngineOf, Reordered, Checked, Supported, Behind, SomeSole, BinaryFails, Lengthened, SetFalse, Val, Trailed;
      ghost var literals0, watches0 := literals, watches;
      var lit := TrueLiteral(Var(l), vals);
      TrueLiteralListed(literals, garbage, pos, vals, watches, Var(l));
      TrailedAt(vals, trail, trailPos, Var(l));
      ReorderedSame(literals);
      if Var(l) in inactive {
        return false;
      }
      LengthenedSame(watches, vals);
      if propergated < |trail| {
        Repropagate();
      } else {
        assert trail[propergated..] == [];
        NothingBehind(literals, garbage, vals, 1);
      }
      TrueLiteralListed(literals, garbage, pos, vals, watches, Var(l));
      LengthenedStuck(watches, watches0, vals, lit);
      SomeSoleReordered(literals, literals0, garbage, lit, vals);
      res := CheckBinaries(watches[lit]);
      if !res {
        return;
      }
      ghost var literals1 := literals;
      res := CheckWatches(lit);
      SomeSoleReordered(literals, literals1, garbage, lit, vals);
      ReorderedTrans(literals, literals1, literals0);
      NothingBehind(literals, garbage, vals, 1);
      assert trail[propergated..] == [];
      if res {
        EngineIsWatched(literals, garbage, pos, vals, watches);
        CheckedNotSole(literals, garbage, watches, vals, lit);
        FlipSupports(literals, garbage, watches, vals, lit);
        EngineFlip(literals, garbage, pos, vals, watches, lit);
        TrailedFlip(vals, trail, trailPos, lit);
        vals := SetFalse(lit, vals);
        trail := trail[trailPos[Var(lit)] := Neg(lit)];
        assert trail[propergated..] == [];
        NothingBehind(literals, garbage, vals, 1);
      }
    }

    /** One watch of `lit`, blocking literal first: is its clause excused? */
    method AskWatch(lit: Lit, i: nat) returns (res: bool)
      requires lit in watches && i < |watches[lit]| && Val(lit, vals) > 0 && Engine(watches)
      modifies this`pos, this`watches
      ensures lit in watches && Engine(watches) && SameFrom(watches[lit], old(watches[lit]), i + 1)
      ensures old(watches[lit])[i].clause in literals
      ensures res <==> Excused(literals, garbage, vals, lit, old(watches[lit])[i])
    {
      hide EngineOf, HasTrue;
      var ws := watches[lit];
      var w := ws[i];
      var r := w.clause;
      ghost var a, b := ws[..i], ws[i+1..];
      assert ws == a + [w] + b && watches[lit := ws] == watches;
      EngineWatch(literals, garbage, pos, vals, watches, lit, a, w, b);
      if Val(w.blit, vals) > 0 {
        return true;
      }
      if w.size == 2 {
        return false;
      }
      if r in garbage {
        return true;
      }
      SatisfiedClause(literals, garbage, pos, vals, watches, r);
      var other := if literals[r][0] == lit then literals[r][1] else literals[r][0];
      if Val(other, vals) > 0 {
        EngineBlit(literals, garbage, pos, vals, watches, lit, i, other);
        watches := watches[lit := ws[i := w.(blit := other)]];
        return true;
      }
      var k := FindTrue(literals[r], pos[r]);
      if k == |literals[r]| {
        return false;
      }
      assert literals[r][k] in literals[r];
      EngineBlit(literals, garbage, pos, vals, watches, lit, i, literals[r][k]);
      EngineMove(literals, garbage, pos, vals, watches[lit := ws[i := w.(blit := literals[r][k])]], r, k);
      pos := pos[r := k];
      watches := watches[lit := ws[i := w.(blit := literals[r][k])]];
      return true;
    }

    /** Ask every watch of `lit`. */
    method AskWatches(lit: Lit) returns (res: bool)
      requires lit in watches && Val(lit, vals) > 0 && Engine(watches) && Supported(literals, garbage, vals)
      modifies this`pos, this`watches
      ensures Engine(watches) && lit in watches
      ensures res <==> !Stuck(literals, garbage, old(watches[lit]), lit, vals)
    {
      hide EngineOf, Val, Supported, Stuck, Excused;
      ghost var ws := watches[lit];
      for i := 0 to |watches[lit]|
        invariant lit in watches && Engine(watches) && Val(lit, vals) > 0
        invariant SameFrom(watches[lit], ws, i)
        invariant forall j :: 0 <= j < i ==> Excused(literals, garbage, vals, lit, ws[j])
      {
        var answer := AskWatch(lit, i);
        if !answer {
          Refused(literals, garbage, vals, lit, ws, i);
          return false;
        }
      }
      AllExcused(literals, garbage, old(pos), old(watches), vals, lit);
      return true;
    }

    /** `flippable`: the same question, answered without moving a watch; only
        blocking literals and saved positions change. */
    method Flippable(l: Lit) returns (res: bool)
      requires Valid() && Var(l) in vals
      modifies this`literals, this`pos, this`watches, this`propergated
      ensures Valid() && Reordered(literals, old(literals))
      ensures var lit := TrueLiteral(Var(l), vals);
        && lit in old(watches)
        && (res <==> Var(l) !in inactive && !Stuck(old(literals), garbage, old(watches[lit]), lit, vals))
    {
      hide EngineOf, Reordered, Supported, Behind, SomeSole, BinaryFails, Lengthened, Val, Trailed;
      ghost var literals0, watches0 := literals, watches;
      var lit := TrueLiteral(Var(l), vals);
      TrueLiteralListed(literals, garbage, pos, vals, watches, Var(l));
      ReorderedSame(literals);
      if Var(l) in inactive {
        return false;
      }
      LengthenedSame(watches, vals);
      if propergated < |trail| {
        Repropagate();
      } else {
        assert trail[propergated..] == [];
        NothingBehind(literals, garbage, vals, 1);
      }
      TrueLiteralListed(literals, garbage, pos, vals, watches, Var(l));
      LengthenedStuck(watches, watches0, vals, lit);
      SomeSoleReordered(literals, literals0, garbage, lit, vals);
      res := AskWatches(lit);
    }
  }
}
